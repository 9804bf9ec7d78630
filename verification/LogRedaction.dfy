/** The redaction of node inputs and outputs before they are logged. */
module LogRedaction {
  import opened JsonValues
  import opened Texts

  const MAX_STRING_CHARS := 2000
  const MAX_DEPTH := 6
  const MAX_ITEMS := 100
  const ELLIPSIS: string := "\U{2026}"
  const MARKER := Str("[REDACTED]")
  const SECRET_WORDS := ["token", "secret", "password", "apikey", "api_key", "api-key", "authorization"]

  function LowerAscii(s: string): string {
    seq(|s|, i requires 0 <= i < |s| => if 'A' <= s[i] <= 'Z' then s[i] - 'A' + 'a' else s[i])
  }

  /** The secret-key pattern, without regard to case. */
  predicate IsSecretKey(key: string) {
    exists i :: 0 <= i < |SECRET_WORDS| && Includes(LowerAscii(key), SECRET_WORDS[i])
  }

  predicate IsHeadersKey(key: string) {
    LowerAscii(key) == "headers"
  }

  function Truncate(s: string): string {
    if |s| <= MAX_STRING_CHARS then s else s[..MAX_STRING_CHARS] + ELLIPSIS
  }

  /** A header value is logged as text; `show` gives the text of a value that is no string. */
  function RedactHeader(show: Json -> string, name: string, value: Json): Json {
    if IsSecretKey(name) then MARKER
    else Str(Truncate(if value.Str? then value.s else show(value)))
  }

  function RedactHeaders(show: Json -> string, headers: map<string, Json>): map<string, Json> {
    map name | name in headers :: RedactHeader(show, name, headers[name])
  }

  function RedactField(show: Json -> string, key: string, value: Json, depth: nat): Json
    decreases value, 1
  {
    if IsSecretKey(key) then MARKER
    else if IsHeadersKey(key) && value.Obj? then Obj(RedactHeaders(show, value.fields))
    else Redact(show, value, depth + 1)
  }

  function Redact(show: Json -> string, value: Json, depth: nat): Json
    decreases value, 0
  {
    if value.Null? then Null
    else if depth >= MAX_DEPTH then MARKER
    else
      match value
      case Arr(items) =>
        Arr(seq(if |items| <= MAX_ITEMS then |items| else MAX_ITEMS,
                i requires 0 <= i < |items| => Redact(show, items[i], depth + 1)))
      case Obj(fields) => Obj(map key | key in fields :: RedactField(show, key, fields[key], depth))
      case Str(s) => Str(Truncate(s))
      case _ => value
  }

  // ----- Which keys are secret -----

  /** The text in lower case, for the Latin letters. */
  predicate IsLowered(s: string, lowered: string) {
    |lowered| == |s| && forall i :: 0 <= i < |s| ==>
      lowered[i] == if 'A' <= s[i] && s[i] <= 'Z' then (s[i] as int + 32) as char else s[i]
  }

  /** A key is secret exactly when, in lower case, it contains one of the seven words; it is a headers key
      exactly when, in lower case, it is that word. */
  lemma SecretKeyIff(key: string, lowered: string)
    requires IsLowered(key, lowered)
    ensures IsSecretKey(key) <==>
            Includes(lowered, "token") || Includes(lowered, "secret") || Includes(lowered, "password") ||
            Includes(lowered, "apikey") || Includes(lowered, "api_key") || Includes(lowered, "api-key") ||
            Includes(lowered, "authorization")
    ensures IsHeadersKey(key) <==> lowered == "headers"
  {
    assert lowered == LowerAscii(key);
    var words := SECRET_WORDS;
    assert words[0] == "token" && words[1] == "secret" && words[2] == "password" && words[3] == "apikey" &&
           words[4] == "api_key" && words[5] == "api-key" && words[6] == "authorization";
  }

  // ----- What a redacted value looks like -----

  predicate ShortText(s: string) {
    |s| <= 2000 || (|s| == 2001 && s[2000] == '\U{2026}')
  }

  predicate IsMarker(value: Json) {
    value == Str("[REDACTED]")
  }

  /** Every header is a short text, and a secret one is the marker. */
  predicate SafeHeaders(headers: map<string, Json>) {
    forall name :: name in headers ==>
      if IsSecretKey(name) then IsMarker(headers[name]) else headers[name].Str? && ShortText(headers[name].s)
  }

  predicate SafeField(key: string, value: Json, depth: nat)
    decreases value, 1
  {
    if IsSecretKey(key) then IsMarker(value)
    else if IsHeadersKey(key) && value.Obj? then SafeHeaders(value.fields)
    else Safe(value, depth + 1)
  }

  /** Safe to log at this depth: secret keys carry the marker, strings and arrays are short, and from the
      sixth level on a value is null or the marker. Headers count as part of the record that holds them. */
  predicate Safe(value: Json, depth: nat)
    decreases value, 0
  {
    if value.Null? then true
    else if depth >= 6 then IsMarker(value)
    else
      match value
      case Arr(items) => |items| <= 100 && forall i :: 0 <= i < |items| ==> Safe(items[i], depth + 1)
      case Obj(fields) => forall key :: key in fields ==> SafeField(key, fields[key], depth)
      case Str(s) => ShortText(s)
      case _ => true
  }

  lemma TruncateIsShort(s: string)
    ensures ShortText(Truncate(s))
    ensures ShortText(s) <==> Truncate(s) == s
  {
    if |s| == 2001 {
      assert s == s[..2000] + s[2000..];
    }
  }

  lemma SafeHeadersStay(show: Json -> string, headers: map<string, Json>)
    requires SafeHeaders(headers)
    ensures RedactHeaders(show, headers) == headers
  {
    forall name | name in headers && headers[name].Str?
      ensures ShortText(headers[name].s) <==> Truncate(headers[name].s) == headers[name].s
    {
      TruncateIsShort(headers[name].s);
    }
  }

  lemma {:induction false} RedactedFieldIsSafe(show: Json -> string, key: string, value: Json, depth: nat)
    ensures SafeField(key, RedactField(show, key, value, depth), depth)
    decreases value, 1
  {
    RedactIsSafe(show, value, depth + 1);
    if value.Obj? {
    }
  }

  /** Whatever is logged is safe. */
  lemma {:induction false} RedactIsSafe(show: Json -> string, value: Json, depth: nat)
    ensures Safe(Redact(show, value, depth), depth)
    decreases value, 0
  {
    if value.Null? || depth >= 6 {
      return;
    }
    match value {
      case Arr(items) =>
        forall i | 0 <= i < |items|
          ensures Safe(Redact(show, items[i], depth + 1), depth + 1)
        {
          RedactIsSafe(show, items[i], depth + 1);
        }
      case Obj(fields) =>
        forall key | key in fields
          ensures SafeField(key, RedactField(show, key, fields[key], depth), depth)
        {
          RedactedFieldIsSafe(show, key, fields[key], depth);
        }
      case Str(s) => TruncateIsShort(s);
      case _ =>
    }
  }

  lemma {:induction false} SafeFieldStays(show: Json -> string, key: string, value: Json, depth: nat)
    requires SafeField(key, value, depth)
    ensures RedactField(show, key, value, depth) == value
    decreases value, 1
  {
    if IsSecretKey(key) {
    } else if IsHeadersKey(key) && value.Obj? {
      SafeHeadersStay(show, value.fields);
    } else {
      SafeStays(show, value, depth + 1);
    }
  }

  lemma {:induction false} SafeStays(show: Json -> string, value: Json, depth: nat)
    requires Safe(value, depth)
    ensures Redact(show, value, depth) == value
    decreases value, 0
  {
    if value.Null? || depth >= 6 {
      return;
    }
    match value {
      case Arr(items) =>
        forall i | 0 <= i < |items|
          ensures Redact(show, items[i], depth + 1) == items[i]
        {
          SafeStays(show, items[i], depth + 1);
        }
        assert Redact(show, value, depth).items == items;
      case Obj(fields) =>
        forall key | key in fields
          ensures RedactField(show, key, fields[key], depth) == fields[key]
        {
          SafeFieldStays(show, key, fields[key], depth);
        }
        assert Redact(show, value, depth).fields == fields;
      case Str(s) => TruncateIsShort(s);
      case _ =>
    }
  }

  /** Redaction leaves a value alone exactly when it is safe already. */
  lemma FixedIffSafe(show: Json -> string, value: Json, depth: nat)
    ensures Redact(show, value, depth) == value <==> Safe(value, depth)
  {
    RedactIsSafe(show, value, depth);
    if Safe(value, depth) {
      SafeStays(show, value, depth);
    }
  }

  /** Redacting twice is redacting once, also when the two passes show other values differently. */
  lemma RedactionIsIdempotent(show: Json -> string, show': Json -> string, value: Json, depth: nat)
    ensures Redact(show', Redact(show, value, depth), depth) == Redact(show, value, depth)
  {
    RedactIsSafe(show, value, depth);
    SafeStays(show', Redact(show, value, depth), depth);
  }

  // ----- What is kept -----

  /** A value that is no record or array, and no long string. */
  predicate IsSmall(value: Json) {
    !value.Obj? && !value.Arr? && (value.Str? ==> |value.s| <= 2000)
  }

  /** Above the depth limit redaction keeps the shape: records keep their keys, arrays their first
      items, and a long string its beginning. */
  lemma RedactionKeepsShape(show: Json -> string, value: Json, depth: nat)
    requires depth < 6
    ensures var logged := Redact(show, value, depth);
            match value
            case Obj(fields) => logged.Obj? && logged.fields.Keys == fields.Keys
            case Arr(items) =>
              logged.Arr? && (|logged.items| == |items| || |logged.items| == 100 < |items|) &&
              forall i :: 0 <= i < |logged.items| && IsSmall(items[i]) ==>
                  logged.items[i] == items[i] || IsMarker(logged.items[i])
            case Str(s) => logged.Str? && (logged.s == s || logged.s == s[..2000] + "\U{2026}") &&
              (|s| <= 2000 ==> logged.s == s)
            case _ => logged == value
  {
  }

  /** A header that is not secret is logged as its text, or the text given for its value, cut after 2000
      characters. */
  lemma HeadersAreShown(show: Json -> string, headers: map<string, Json>, name: string)
    requires name in headers && !IsSecretKey(name)
    ensures var text := match headers[name] case Str(s) => s case _ => show(headers[name]);
            name in RedactHeaders(show, headers) &&
            RedactHeaders(show, headers)[name] ==
              Str(if |text| <= 2000 then text else text[..2000] + "\U{2026}")
  {
  }

  // ----- What is left at the depth limit -----

  /** Of the fields of a record just above the depth limit, exactly the nulls, the headers records and
      the markers survive: a field is logged as anything else than null or the marker exactly when it is
      a headers record under a key that is not secret. */
  lemma DeepestFields(show: Json -> string, key: string, value: Json)
    ensures var logged := RedactField(show, key, value, 6 - 1);
            && (logged.Null? <==> value.Null? && !IsSecretKey(key))
            && (!logged.Null? && !IsMarker(logged) <==> !IsSecretKey(key) && IsHeadersKey(key) && value.Obj?)
            && (logged.Obj? ==> SafeHeaders(logged.fields) && logged.fields.Keys == value.fields.Keys)
  {
    if value.Obj? {
    }
  }

  /** Records and arrays nest at most `levels` deep. */
  predicate NestsWithin(value: Json, levels: nat)
    decreases value
  {
    match value
    case Arr(items) => levels > 0 && forall i :: 0 <= i < |items| ==> NestsWithin(items[i], levels - 1)
    case Obj(fields) => levels > 0 && forall key :: key in fields ==> NestsWithin(fields[key], levels - 1)
    case _ => true
  }

  lemma {:induction false} SafeFieldNests(key: string, value: Json, depth: nat)
    requires SafeField(key, value, depth) && depth < 6
    ensures NestsWithin(value, 6 - depth)
    decreases value, 1
  {
    if !IsSecretKey(key) && !(IsHeadersKey(key) && value.Obj?) {
      SafeNests(value, depth + 1);
    }
  }

  /** A value that is safe at some depth nests at most down to the limit and one level more, which only a
      headers record can take. */
  lemma {:induction false} SafeNests(value: Json, depth: nat)
    requires Safe(value, depth) && depth <= 6
    ensures NestsWithin(value, 6 - depth + 1) && (depth == 6 ==> NestsWithin(value, 0))
    decreases value, 0
  {
    if value.Null? || depth == 6 {
      return;
    }
    match value
    case Arr(items) =>
      forall i | 0 <= i < |items|
        ensures NestsWithin(items[i], 6 - depth)
      {
        SafeNests(items[i], depth + 1);
      }
    case Obj(fields) =>
      forall key | key in fields
        ensures NestsWithin(fields[key], 6 - depth)
      {
        SafeFieldNests(key, fields[key], depth);
      }
    case _ =>
  }

  /** Everything logged nests at most one level deeper than the limit. */
  lemma LoggedNestsWithin(show: Json -> string, value: Json, depth: nat)
    requires depth <= 6
    ensures NestsWithin(Redact(show, value, depth), 6 - depth + 1)
  {
    RedactIsSafe(show, value, depth);
    SafeNests(Redact(show, value, depth), depth);
  }

  // ----- Nothing under a secret key reaches the log -----

  ghost predicate SameHeaders(f: map<string, Json>, g: map<string, Json>) {
    f.Keys == g.Keys && forall name :: name in f && !IsSecretKey(name) ==> f[name] == g[name]
  }

  ghost predicate SameField(key: string, a: Json, b: Json)
    decreases a, 1
  {
    IsSecretKey(key) ||
    if IsHeadersKey(key) && a.Obj? && b.Obj? then SameHeaders(a.fields, b.fields) else SameButSecrets(a, b)
  }

  /** The same value up to what stands under secret keys. */
  ghost predicate SameButSecrets(a: Json, b: Json)
    decreases a, 0
  {
    match a
    case Arr(xs) =>
      b.Arr? && |xs| == |b.items| && forall i :: 0 <= i < |xs| ==> SameButSecrets(xs[i], b.items[i])
    case Obj(f) =>
      b.Obj? && f.Keys == b.fields.Keys && forall key :: key in f ==> SameField(key, f[key], b.fields[key])
    case _ => a == b
  }

  lemma {:induction false} SecretFieldsDoNotMatter(show: Json -> string, key: string, a: Json, b: Json, depth: nat)
    requires SameField(key, a, b)
    ensures RedactField(show, key, a, depth) == RedactField(show, key, b, depth)
    decreases a, 1
  {
    if IsSecretKey(key) {
    } else if IsHeadersKey(key) && a.Obj? && b.Obj? {
      assert RedactHeaders(show, a.fields) == RedactHeaders(show, b.fields);
    } else {
      SecretsDoNotMatter(show, a, b, depth + 1);
    }
  }

  /** Values that differ only under secret keys are logged alike. */
  lemma {:induction false} SecretsDoNotMatter(show: Json -> string, a: Json, b: Json, depth: nat)
    requires SameButSecrets(a, b)
    ensures Redact(show, a, depth) == Redact(show, b, depth)
    decreases a, 0
  {
    if depth >= 6 {
      return;
    }
    match a {
      case Arr(xs) =>
        forall i | 0 <= i < |xs|
          ensures Redact(show, xs[i], depth + 1) == Redact(show, b.items[i], depth + 1)
        {
          SecretsDoNotMatter(show, xs[i], b.items[i], depth + 1);
        }
        assert Redact(show, a, depth).items == Redact(show, b, depth).items;
      case Obj(f) =>
        forall key | key in f
          ensures RedactField(show, key, f[key], depth) == RedactField(show, key, b.fields[key], depth)
        {
          SecretFieldsDoNotMatter(show, key, f[key], b.fields[key], depth);
        }
        assert Redact(show, a, depth).fields == Redact(show, b, depth).fields;
      case _ =>
    }
  }
}
