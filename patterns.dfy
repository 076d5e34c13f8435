/** The two regular expressions the account schemas test with re.match:
    the phone pattern ^\+?[0-9]{7,15}$ (src/models/technical_model.py and
    src/models/admin.py) and the email pattern ^[\w\.-]+@[\w\.-]+\.\w+$
    (src/models/admin.py). Each pattern is a term of a small regular
    expression language, and Span says which slices of the text a term
    matches, which is what a backtracking matcher explores. The declarative predicates PhoneNumber
    and EmailAddress say what the patterns accept, and the lemmas prove the
    two agree. As in Python, `$` matches at the end of the string and also
    just before a single newline that ends it. */
module Patterns {

  /** The character classes the two patterns use. `\w` is taken as the
      ASCII word characters. */
  datatype CharClass = Digit | Word | WordDotDash | Literal(c: char)

  predicate IsWordChar(c: char) {
    'a' <= c <= 'z' || 'A' <= c <= 'Z' || '0' <= c <= '9' || c == '_'
  }

  predicate InClass(k: CharClass, c: char) {
    match k
    case Digit => '0' <= c <= '9'
    case Word => IsWordChar(c)
    case WordDotDash => IsWordChar(c) || c == '.' || c == '-'
    case Literal(l) => c == l
  }

  /** The pattern terms: one character of a class, an optional one, a
      bounded repetition `{lo,hi}`, a repetition `+`, and concatenation. */
  datatype Regex =
    | One(k: CharClass)
    | Optional(k: CharClass)
    | Between(k: CharClass, lo: nat, hi: nat)
    | OneOrMore(k: CharClass)
    | Then(first: Regex, rest: Regex)

  /** Every character of `t` is in class `k`. */
  predicate AllIn(k: CharClass, t: string) {
    forall p :: 0 <= p < |t| ==> InClass(k, t[p])
  }

  /** How many characters of class `k` follow position `i`. */
  function Run(k: CharClass, s: string, i: nat): (n: nat)
    requires i <= |s|
    ensures i + n <= |s|
    decreases |s| - i
  {
    if i < |s| && InClass(k, s[i]) then 1 + Run(k, s, i + 1) else 0
  }

  /** s[i..j] lies in class `k` exactly when it stays within the run that
      starts at `i`. */
  lemma {:induction false} RunSpec(k: CharClass, s: string, i: nat, j: nat)
    requires i <= j <= |s|
    ensures AllIn(k, s[i..j]) <==> j <= i + Run(k, s, i)
    decreases |s| - i
  {
    if i < j {
      RunSpec(k, s, i + 1, j);
      assert s[i..j] == [s[i]] + s[i + 1..j];
      if InClass(k, s[i]) {
        assert AllIn(k, s[i..j]) <==> AllIn(k, s[i + 1..j]);
      } else {
        assert !AllIn(k, s[i..j]) by { assert s[i..j][0] == s[i]; }
      }
    }
  }

  /** `r` matches s[i..j]. A concatenation matches when the text splits
      into a match of each part; a repetition of a class matches when the
      text stays within the run of that class that starts at `i`. */
  predicate Span(r: Regex, s: string, i: nat, j: nat)
    requires i <= j <= |s|
    decreases r
  {
    match r
    case One(k) => j == i + 1 && InClass(k, s[i])
    case Optional(k) => j == i || (j == i + 1 && InClass(k, s[i]))
    case Between(k, lo, hi) => i + lo <= j <= i + hi && j <= i + Run(k, s, i)
    case OneOrMore(k) => i < j <= i + Run(k, s, i)
    case Then(a, b) => exists p :: i <= p <= j && Span(a, s, i, p) && Span(b, s, p, j)
  }

  /** re.match(pattern, s) finds a match: `^` anchors it at the front, and
      `$` holds at the end of `s` or before a newline that ends `s`. */
  predicate Matches(r: Regex, s: string) {
    Span(r, s, 0, |s|) || (|s| > 0 && s[|s| - 1] == '\n' && Span(r, s, 0, |s| - 1))
  }

  /** r'^\+?[0-9]{7,15}$' */
  const PhonePattern: Regex := Then(Optional(Literal('+')), Between(Digit, 7, 15))

  /** r'^[\w\.-]+@[\w\.-]+\.\w+$' */
  const EmailPattern: Regex :=
    Then(OneOrMore(WordDotDash), Then(One(Literal('@')), Then(OneOrMore(WordDotDash),
      Then(One(Literal('.')), OneOrMore(Word)))))

  /** An optional leading `+`, then 7 to 15 ASCII digits. */
  predicate PhoneNumber(t: string) {
    var digits := if |t| > 0 && t[0] == '+' then t[1..] else t;
    7 <= |digits| <= 15 && AllIn(Digit, digits)
  }

  /** A local part of word characters, dots and dashes; `@`; a host of the
      same characters; a dot; a last label of word characters. */
  predicate EmailAddress(t: string) {
    exists a: nat, b: nat | a < b < |t| :: EmailParts(t, a, b)
  }

  /** `t` splits at an `@` at `a` and a dot at `b` into a local part, a
      host and a last label. */
  predicate EmailParts(t: string, a: nat, b: nat) {
    && 0 < a && a + 1 < b && b + 1 < |t| && t[a] == '@' && t[b] == '.'
    && AllIn(WordDotDash, t[..a]) && AllIn(WordDotDash, t[a + 1..b]) && AllIn(Word, t[b + 1..])
  }

  /** Python's `$`: `t` itself, or `t` followed by one newline. */
  predicate UpToNewline(s: string, t: string) {
    s == t || s == t + ['\n']
  }

  lemma OneOrMoreSpan(k: CharClass, s: string, i: nat, j: nat)
    requires i <= j <= |s|
    ensures Span(OneOrMore(k), s, i, j) <==> i < j && AllIn(k, s[i..j])
  {
    RunSpec(k, s, i, j);
  }

  lemma BetweenSpan(k: CharClass, lo: nat, hi: nat, s: string, i: nat, j: nat)
    requires i <= j <= |s|
    ensures Span(Between(k, lo, hi), s, i, j) <==> i + lo <= j <= i + hi && AllIn(k, s[i..j])
  {
    RunSpec(k, s, i, j);
  }

  /** The phone pattern matches the first `j` characters exactly when they
      are a phone number. */
  lemma PhoneSpan(s: string, j: nat)
    requires j <= |s|
    ensures Span(PhonePattern, s, 0, j) <==> PhoneNumber(s[..j])
  {
    var t := s[..j];
    BetweenSpan(Digit, 7, 15, s, 0, j);
    assert t == s[0..j];
    if 0 < j && s[0] == '+' {
      BetweenSpan(Digit, 7, 15, s, 1, j);
      assert t[1..] == s[1..j];
      assert !AllIn(Digit, s[0..j]) by { assert s[0..j][0] == '+'; }
    }
  }

  /** The phone pattern accepts exactly a phone number, or one followed by
      a single newline. */
  lemma PhoneMatchIff(s: string)
    ensures Matches(PhonePattern, s) <==> exists t :: UpToNewline(s, t) && PhoneNumber(t)
  {
    PhoneSpan(s, |s|);
    assert s[..|s|] == s;
    if |s| > 0 && s[|s| - 1] == '\n' {
      PhoneSpan(s, |s| - 1);
      assert s == s[..|s| - 1] + ['\n'];
    }
    if t :| UpToNewline(s, t) && PhoneNumber(t) {
      if s != t {
        assert s[..|s| - 1] == t;
      }
    }
  }

  /** The parts of the email pattern after the local part. */
  const EmailLabel: Regex := Then(One(Literal('.')), OneOrMore(Word))
  const EmailHost: Regex := Then(OneOrMore(WordDotDash), EmailLabel)
  const EmailAfterLocal: Regex := Then(One(Literal('@')), EmailHost)

  lemma LabelSpan(s: string, b: nat, m: nat)
    requires b <= m <= |s|
    ensures Span(EmailLabel, s, b, m) <==> b + 1 < m && s[b] == '.' && AllIn(Word, s[b + 1..m])
  {
    if b + 1 <= m {
      OneOrMoreSpan(Word, s, b + 1, m);
    }
    if b + 1 < m && s[b] == '.' && AllIn(Word, s[b + 1..m]) {
      assert Span(One(Literal('.')), s, b, b + 1);
    }
  }

  lemma HostSpan(s: string, h: nat, m: nat)
    requires h <= m <= |s|
    ensures Span(EmailHost, s, h, m) <==>
      exists b :: h < b < m && AllIn(WordDotDash, s[h..b]) && Span(EmailLabel, s, b, m)
  {
    if Span(EmailHost, s, h, m) {
      var b :| h <= b <= m && Span(OneOrMore(WordDotDash), s, h, b) && Span(EmailLabel, s, b, m);
      OneOrMoreSpan(WordDotDash, s, h, b);
      LabelSpan(s, b, m);
    }
    if b :| h < b < m && AllIn(WordDotDash, s[h..b]) && Span(EmailLabel, s, b, m) {
      OneOrMoreSpan(WordDotDash, s, h, b);
    }
  }

  lemma AfterLocalSpan(s: string, a: nat, m: nat)
    requires a <= m <= |s|
    ensures Span(EmailAfterLocal, s, a, m) <==> a < m && s[a] == '@' && Span(EmailHost, s, a + 1, m)
  {
    if a < m && s[a] == '@' && Span(EmailHost, s, a + 1, m) {
      assert Span(One(Literal('@')), s, a, a + 1);
    }
  }

  /** The three parts of s[..m] are slices of `s` itself. */
  lemma PrefixParts(s: string, m: nat, a: nat, b: nat)
    requires a < b < m <= |s|
    ensures s[..m][..a] == s[0..a] && s[..m][a + 1..b] == s[a + 1..b] && s[..m][b + 1..] == s[b + 1..m]
  {
  }

  lemma EmailSpanSound(s: string, m: nat)
    requires m <= |s| && Span(EmailPattern, s, 0, m)
    ensures EmailAddress(s[..m])
  {
    var a :| 0 <= a <= m && Span(OneOrMore(WordDotDash), s, 0, a) && Span(EmailAfterLocal, s, a, m);
    OneOrMoreSpan(WordDotDash, s, 0, a);
    AfterLocalSpan(s, a, m);
    HostSpan(s, a + 1, m);
    var b :| a + 1 < b < m && AllIn(WordDotDash, s[a + 1..b]) && Span(EmailLabel, s, b, m);
    LabelSpan(s, b, m);
    PrefixParts(s, m, a, b);
    assert EmailParts(s[..m], a, b);
  }

  lemma EmailSpanComplete(s: string, m: nat, a: nat, b: nat)
    requires m <= |s| && EmailParts(s[..m], a, b)
    ensures Span(EmailPattern, s, 0, m)
  {
    PrefixParts(s, m, a, b);
    LabelSpan(s, b, m);
    HostSpan(s, a + 1, m);
    AfterLocalSpan(s, a, m);
    OneOrMoreSpan(WordDotDash, s, 0, a);
  }

  /** The email pattern matches the first `m` characters exactly when they
      are an email address. */
  lemma EmailSpan(s: string, m: nat)
    requires m <= |s|
    ensures Span(EmailPattern, s, 0, m) <==> EmailAddress(s[..m])
  {
    if Span(EmailPattern, s, 0, m) {
      EmailSpanSound(s, m);
    }
    if EmailAddress(s[..m]) {
      var a: nat, b: nat :| a < b < m && EmailParts(s[..m], a, b);
      EmailSpanComplete(s, m, a, b);
    }
  }

  /** The email pattern accepts exactly an email address, or one followed
      by a single newline. */
  lemma EmailMatchIff(s: string)
    ensures Matches(EmailPattern, s) <==> exists t :: UpToNewline(s, t) && EmailAddress(t)
  {
    EmailSpan(s, |s|);
    assert s[..|s|] == s;
    if |s| > 0 && s[|s| - 1] == '\n' {
      EmailSpan(s, |s| - 1);
      assert s == s[..|s| - 1] + ['\n'];
    }
    if t :| UpToNewline(s, t) && EmailAddress(t) {
      if s != t {
        assert s[..|s| - 1] == t;
      }
    }
  }

  /** An email address holds exactly one `@`, and the dot before its last
      label is the last dot of the address. */
  lemma EmailShape(t: string)
    requires EmailAddress(t)
    ensures exists a :: 0 < a < |t| && t[a] == '@' && forall p :: 0 <= p < |t| && t[p] == '@' ==> p == a
    ensures exists b :: 0 < b < |t| - 1 && t[b] == '.' && forall p :: b < p < |t| ==> t[p] != '.'
  {
    var a: nat, b: nat :| a < b < |t| && EmailParts(t, a, b);
    forall p | 0 <= p < |t| && p != a ensures t[p] != '@' {
      if p < a {
        assert InClass(WordDotDash, t[..a][p]);
      } else if a < p < b {
        assert InClass(WordDotDash, t[a + 1..b][p - a - 1]);
      } else if b < p {
        assert InClass(Word, t[b + 1..][p - b - 1]);
      }
    }
    forall p | b < p < |t| ensures t[p] != '.' {
      assert InClass(Word, t[b + 1..][p - b - 1]);
    }
  }

  /** AdminCreate.validate_contact: an email address or a phone number. */
  predicate ValidContact(v: string) {
    Matches(EmailPattern, v) || Matches(PhonePattern, v)
  }

  /** A phone number passes the contact check too, and so does a value
      that ends in one newline after a valid phone number. */
  lemma PhoneIsContact(t: string)
    requires PhoneNumber(t)
    ensures ValidContact(t) && ValidContact(t + ['\n'])
  {
    PhoneMatchIff(t);
    assert UpToNewline(t, t);
    PhoneMatchIff(t + ['\n']);
    assert UpToNewline(t + ['\n'], t);
  }

  /** `$` lets one trailing newline through: the value is accepted, and
      stored, with it. */
  lemma PhoneNewlineAccepted()
    ensures Matches(PhonePattern, "1234567\n")
  {
    PhoneMatchIff("1234567\n");
    assert UpToNewline("1234567\n", "1234567");
  }

  /** Six digits are one too few. */
  lemma PhoneSixDigitsRefused()
    ensures !Matches(PhonePattern, "123456")
  {
    PhoneMatchIff("123456");
  }
}
