/**
  Validation of the contact form on submit: the three required fields must
  not be blank, and the email must match `/^[^\s@]+@[^\s@]+\.[^\s@]+$/`.
  A field that fails is flagged (its red outline); a field that passes has
  its outline cleared.

  The submitted form data is a map from field name to value. A field the map
  does not hold reads as `undefined` in the source, which fails `!data[field]`
  exactly as the empty string does, so `Field` reads it as "".
*/
module ContactForm {

  /**
    ECMAScript's white space and line terminators: the characters the regular
    expression class `\s` matches and the characters `String.prototype.trim`
    removes.
  */
  predicate IsWs(c: char) {
    || c == '\t' || c == '\n' || c == '\U{000B}' || c == '\U{000C}' || c == '\r' || c == ' '
    || c == '\U{00A0}' || c == '\U{1680}' || ('\U{2000}' <= c <= '\U{200A}')
    || c == '\U{2028}' || c == '\U{2029}' || c == '\U{202F}' || c == '\U{205F}'
    || c == '\U{3000}' || c == '\U{FEFF}'
  }

  /** Every character is white space (the empty string included). */
  ghost predicate AllWhitespace(s: string) {
    forall i :: 0 <= i < |s| ==> IsWs(s[i])
  }

  /** Where `trim()` starts keeping characters: the first index from `i` on that holds no white space, or `|s|`. */
  function TrimStartIndex(s: string, i: nat): (a: nat)
    requires i <= |s|
    ensures i <= a <= |s|
    ensures forall k :: i <= k < a ==> IsWs(s[k])
    ensures a == |s| || !IsWs(s[a])
    decreases |s| - i
  {
    if i < |s| && IsWs(s[i]) then TrimStartIndex(s, i + 1) else i
  }

  /** Where `trim()` stops keeping characters: scanning back from `hi`, the end of the last non-white-space character after `lo`, or `lo`. */
  function TrimEndIndex(s: string, lo: nat, hi: nat): (b: nat)
    requires lo <= hi <= |s|
    ensures lo <= b <= hi
    ensures forall k :: b <= k < hi ==> IsWs(s[k])
    ensures b == lo || !IsWs(s[b - 1])
  {
    if lo < hi && IsWs(s[hi - 1]) then TrimEndIndex(s, lo, hi - 1) else hi
  }

  /**
    `s.trim()`: the slice of `s` left once the leading and the trailing white
    space are removed; it neither starts nor ends with white space.
  */
  function Trim(s: string): (r: string)
    ensures r == [] || (!IsWs(r[0]) && !IsWs(r[|r| - 1]))
    ensures var a := TrimStartIndex(s, 0);
      && a + |r| <= |s|
      && r == s[a..a + |r|]
      && (forall i :: 0 <= i < a ==> IsWs(s[i]))
      && (forall i :: a + |r| <= i < |s| ==> IsWs(s[i]))
  {
    var a := TrimStartIndex(s, 0);
    s[a..TrimEndIndex(s, a, |s|)]
  }

  /** `trim()` leaves nothing exactly when every character is white space. */
  lemma TrimEmptyIffAllWhitespace(s: string)
    ensures Trim(s) == "" <==> AllWhitespace(s)
  {
    var a := TrimStartIndex(s, 0);
    if a < |s| {
      assert Trim(s)[0] == s[a];
    }
  }

  /** The blank test of the submit handler: the value is missing or empty, or trims to nothing. */
  function IsBlank(value: string): (b: bool)
    ensures b <==> AllWhitespace(value)
  {
    TrimEmptyIffAllWhitespace(value);
    value == "" || Trim(value) == ""
  }

  /** A non-empty run of `[^\s@]`: no white space and no `@`. */
  predicate IsPlainRun(s: string) {
    |s| > 0 && forall i :: 0 <= i < |s| ==> !IsWs(s[i]) && s[i] != '@'
  }

  /**
    What the regular expression accepts: the whole string is a plain run, an
    `@`, a plain run, a `.` and a plain run. The runs may contain dots.
  */
  ghost predicate MatchesEmailRegex(s: string) {
    exists local, host, tld ::
      IsPlainRun(local) && IsPlainRun(host) && IsPlainRun(tld) && s == local + "@" + host + "." + tld
  }

  /** The index of the first occurrence of c in s. */
  function IndexOf(s: string, c: char): (i: nat)
    requires c in s
    ensures i < |s| && s[i] == c && c !in s[..i]
  {
    if s[0] == c then 0 else 1 + IndexOf(s[1..], c)
  }

  /**
    The address the regular expression accepts, stated by its parts: no white
    space, exactly one `@` with something before it, and a domain after it
    holding a `.` that is neither its first nor its last character.
  */
  predicate IsEmailShape(s: string) {
    && (forall i :: 0 <= i < |s| ==> !IsWs(s[i]))
    && '@' in s
    && var at := IndexOf(s, '@');
      var domain := s[at + 1..];
      && 0 < at
      && '@' !in domain
      && |domain| >= 3
      && '.' in domain[1..|domain| - 1]
  }

  /** The structural reading and the regular expression accept the same strings. */
  lemma EmailShapeIffRegex(s: string)
    ensures IsEmailShape(s) <==> MatchesEmailRegex(s)
  {
    if IsEmailShape(s) {
      ShapeMatchesRegex(s);
    }
    if MatchesEmailRegex(s) {
      var local, host, tld :|
        IsPlainRun(local) && IsPlainRun(host) && IsPlainRun(tld) && s == local + "@" + host + "." + tld;
      RegexPartsHaveShape(s, local, host, tld);
    }
  }

  /** An address of the structural shape splits into the three runs the regular expression asks for. */
  lemma ShapeMatchesRegex(s: string)
    requires IsEmailShape(s)
    ensures MatchesEmailRegex(s)
  {
    var at := IndexOf(s, '@');
    var domain := s[at + 1..];
    var inner := domain[1..|domain| - 1];
    var dot := at + 2 + IndexOf(inner, '.');
    assert s[dot] == '.' by {
      assert inner[dot - at - 2] == s[dot];
    }
    var local, host, tld := s[..at], s[at + 1..dot], s[dot + 1..];
    assert IsPlainRun(local) by {
      forall i | 0 <= i < at ensures !IsWs(local[i]) && local[i] != '@' {
        assert local[i] == s[i];
      }
    }
    PlainSlice(s, at, at + 1, dot);
    PlainSlice(s, at, dot + 1, |s|);
    SplitAround(s, at, dot);
  }

  /** A string is its slices around two positions, with the characters at those positions between them. */
  lemma SplitAround(s: string, at: nat, dot: nat)
    requires at < dot < |s|
    ensures s == s[..at] + [s[at]] + s[at + 1..dot] + [s[dot]] + s[dot + 1..]
  {
  }

  /** A non-empty slice of the domain of a well-shaped address is a plain run. */
  lemma PlainSlice(s: string, at: nat, lo: nat, hi: nat)
    requires IsEmailShape(s) && at == IndexOf(s, '@')
    requires at < lo < hi <= |s|
    ensures IsPlainRun(s[lo..hi])
  {
    var domain := s[at + 1..];
    forall i | lo <= i < hi ensures s[i] != '@' {
      assert s[i] == domain[i - at - 1];
    }
  }

  /** The three runs of a match put the only `@` after the local part and an inner `.` in the domain. */
  lemma RegexPartsHaveShape(s: string, local: string, host: string, tld: string)
    requires IsPlainRun(local) && IsPlainRun(host) && IsPlainRun(tld)
    requires s == local + "@" + host + "." + tld
    ensures IsEmailShape(s)
  {
    var at := |local|;
    assert s[..at] == local;
    IndexOfFirst(s, '@', at);
    var domain := s[at + 1..];
    assert domain == host + "." + tld;
    assert domain[1..|domain| - 1][|host| - 1] == '.';
    forall i | 0 <= i < |s| ensures !IsWs(s[i]) {
      if i < at {
        assert s[i] == local[i];
      } else if at < i < at + 1 + |host| {
        assert s[i] == host[i - at - 1];
      } else if at + 1 + |host| < i {
        assert s[i] == tld[i - at - 2 - |host|];
      }
    }
    forall i | 0 <= i < |domain| ensures domain[i] != '@' {
      if i < |host| {
        assert domain[i] == host[i];
      } else if i > |host| {
        assert domain[i] == tld[i - |host| - 1];
      }
    }
  }

  /** An index holding c with no c before it is the one `IndexOf` finds. */
  lemma {:induction false} IndexOfFirst(s: string, c: char, i: nat)
    requires i < |s| && s[i] == c && c !in s[..i]
    ensures c in s && IndexOf(s, c) == i
  {
    if i > 0 {
      assert s[0] == s[..i][0];
      assert s[1..][..i - 1] == s[..i][1..];
      IndexOfFirst(s[1..], c, i - 1);
    }
  }

  /** An address the regular expression accepts is never blank. */
  lemma EmailMatchIsNotBlank(s: string)
    requires MatchesEmailRegex(s)
    ensures !AllWhitespace(s)
  {
    var local, host, tld :|
      IsPlainRun(local) && IsPlainRun(host) && IsPlainRun(tld) && s == local + "@" + host + "." + tld;
    assert s[0] == local[0];
  }

  /** The value the form data holds for a field; a missing field reads as "". */
  function Field(data: map<string, string>, name: string): string {
    if name in data then data[name] else ""
  }

  /** The fields checked for presence, in the order they are checked. */
  const RequiredFields: seq<string> := ["name", "email", "message"]

  /** Index of the email field in `RequiredFields`. */
  const EmailIndex := 1

  /** What the submit handler accepts: no required field blank and an email the regular expression accepts. */
  ghost predicate FormAccepted(data: map<string, string>) {
    && !AllWhitespace(Field(data, "name"))
    && !AllWhitespace(Field(data, "message"))
    && MatchesEmailRegex(Field(data, "email"))
  }

  /** Whether the field's outline ends up red: blank, or for the email also rejected by the regular expression. */
  ghost predicate Flagged(data: map<string, string>, field: string) {
    AllWhitespace(Field(data, field)) || (field == "email" && !MatchesEmailRegex(Field(data, field)))
  }

  /**
    The validation part of the submit handler: the loop over the required
    fields, then the email format check. Returns whether the form is valid and,
    for each required field, whether it is flagged.
  */
  method ValidateContactForm(data: map<string, string>) returns (isValid: bool, flagged: seq<bool>)
    ensures isValid <==> FormAccepted(data)
    ensures |flagged| == |RequiredFields|
    ensures forall i :: 0 <= i < |RequiredFields| ==> flagged[i] == Flagged(data, RequiredFields[i])
  {
    isValid := true;
    flagged := [];
    for i := 0 to |RequiredFields|
      invariant |flagged| == i
      invariant forall j :: 0 <= j < i ==> flagged[j] == AllWhitespace(Field(data, RequiredFields[j]))
      invariant isValid <==> forall j :: 0 <= j < i ==> !AllWhitespace(Field(data, RequiredFields[j]))
    {
      var value := Field(data, RequiredFields[i]);
      if IsBlank(value) {
        isValid := false;
        flagged := flagged + [true];
      } else {
        flagged := flagged + [false];
      }
    }
    assert flagged[0] == AllWhitespace(Field(data, "name"));
    assert flagged[1] == AllWhitespace(Field(data, "email"));
    assert flagged[2] == AllWhitespace(Field(data, "message"));
    var email := Field(data, "email");
    EmailShapeIffRegex(email);
    if email != "" && !IsEmailShape(email) {
      isValid := false;
      flagged := flagged[EmailIndex := true];
    }
    if MatchesEmailRegex(email) {
      EmailMatchIsNotBlank(email);
    }
  }
}
