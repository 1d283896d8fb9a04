/** The e-mail syntax check of registration, the regular expression
    `^[a-zA-Z0-9._%+-]+@[a-zA-Z0-9.-]+\.[a-zA-Z]{2,}$`,
    given twice: once read literally as a pattern (`MatchesEmailPattern`) and once as a
    hand-written validator (`IsValidEmail`), with a proof that the two agree. */
module EmailFormat {
  import opened Wrappers
  import JsText

  predicate IsAsciiLetter(c: char) {
    'a' <= c <= 'z' || 'A' <= c <= 'Z'
  }

  /** `[a-zA-Z0-9._%+-]`, the characters of the local part. */
  predicate IsLocalChar(c: char) {
    IsAsciiLetter(c) || JsText.IsDigit(c) || c == '.' || c == '_' || c == '%' || c == '+' || c == '-'
  }

  /** `[a-zA-Z0-9.-]`, the characters of the domain. */
  predicate IsDomainChar(c: char) {
    IsAsciiLetter(c) || JsText.IsDigit(c) || c == '.' || c == '-'
  }

  predicate AllLocal(s: string) {
    forall i :: 0 <= i < |s| ==> IsLocalChar(s[i])
  }

  predicate AllDomain(s: string) {
    forall i :: 0 <= i < |s| ==> IsDomainChar(s[i])
  }

  predicate AllLetters(s: string) {
    forall i :: 0 <= i < |s| ==> IsAsciiLetter(s[i])
  }

  // ---------------------------------------------------------------------------
  // The pattern, read literally

  /** `s` splits as L "@" D "." T at positions `at` and `dot`, with L matching
      `[a-zA-Z0-9._%+-]+`, D matching `[a-zA-Z0-9.-]+` and T matching `[a-zA-Z]{2,}`. */
  ghost predicate MatchesAt(s: string, at: int, dot: int) {
    && 0 < at && at + 1 < dot && dot + 2 < |s|
    && s[at] == '@' && s[dot] == '.'
    && AllLocal(s[..at]) && AllDomain(s[at + 1..dot]) && AllLetters(s[dot + 1..])
  }

  /** The anchored pattern matches the whole of `s`. */
  ghost predicate MatchesEmailPattern(s: string) {
    exists at, dot :: MatchesAt(s, at, dot)
  }

  // ---------------------------------------------------------------------------
  // The validator

  /** Position of the first `c` in `s`. */
  function FirstIndex(s: string, c: char): (r: Option<nat>)
    ensures r.None? ==> c !in s
    ensures r.Some? ==> r.value < |s| && s[r.value] == c && c !in s[..r.value]
  {
    if s == [] then None
    else if s[0] == c then Some(0)
    else match FirstIndex(s[1..], c)
      case None => None
      case Some(k) => assert s[..k + 1] == [s[0]] + s[1..][..k]; Some(k + 1)
  }

  /** Position of the last `c` in `s`. */
  function LastIndex(s: string, c: char): (r: Option<nat>)
    ensures r.None? ==> c !in s
    ensures r.Some? ==> r.value < |s| && s[r.value] == c && c !in s[r.value + 1..]
  {
    if s == [] then None
    else if s[|s| - 1] == c then Some(|s| - 1)
    else
      var r := LastIndex(s[..|s| - 1], c);
      if r.Some? then assert s[r.value + 1..] == s[..|s| - 1][r.value + 1..] + [s[|s| - 1]]; r else r
  }

  /** The check registration applies: cut at the first `@`; the part before it is a
      non-empty run of local characters; the part after it is made of domain characters,
      and its last `.` has at least one character before it and two or more ASCII letters
      after it. */
  predicate IsValidEmail(s: string) {
    match FirstIndex(s, '@')
    case None => false
    case Some(at) =>
      var domain := s[at + 1..];
      && 0 < at && AllLocal(s[..at]) && AllDomain(domain)
      && match LastIndex(domain, '.')
         case None => false
         case Some(dot) => 0 < dot && dot + 2 < |domain| && AllLetters(domain[dot + 1..])
  }

  /** Every string the validator accepts matches the pattern. */
  lemma ValidatorSound(s: string)
    requires IsValidEmail(s)
    ensures MatchesEmailPattern(s)
  {
    var at := FirstIndex(s, '@').value;
    var domain := s[at + 1..];
    var dot := LastIndex(domain, '.').value;
    assert s[at + 1..at + 1 + dot] == domain[..dot];
    assert s[at + 1 + dot + 1..] == domain[dot + 1..];
    assert MatchesAt(s, at, at + 1 + dot);
  }

  /** Where the pattern matches, its `@` is the first one in the string. */
  lemma PatternAtIsFirst(s: string, at: int, dot: int)
    requires MatchesAt(s, at, dot)
    ensures FirstIndex(s, '@') == Some(at)
  {
    assert '@' !in s[..at] by {
      forall i | 0 <= i < at ensures s[..at][i] != '@' {
        assert IsLocalChar(s[..at][i]);
      }
    }
    var first := FirstIndex(s, '@');
    assert forall j :: 0 <= j < at ==> s[j] != '@' by {
      forall j | 0 <= j < at ensures s[j] != '@' {
        assert s[j] == s[..at][j];
      }
    }
    if first.Some? {
      forall j | 0 <= j < first.value ensures s[j] != '@' {
        assert s[j] == s[..first.value][j];
      }
    }
  }

  /** Where the pattern matches, the text after the `@` is all domain characters and
      the pattern's `.` is the last dot of it. */
  lemma PatternDotIsLast(s: string, at: int, dot: int)
    requires MatchesAt(s, at, dot)
    ensures AllDomain(s[at + 1..])
    ensures LastIndex(s[at + 1..], '.') == Some(dot - at - 1)
  {
    var domain := s[at + 1..];
    var d := dot - at - 1;
    assert domain[..d] == s[at + 1..dot];
    assert domain[d + 1..] == s[dot + 1..];
    forall i | 0 <= i < |domain| ensures IsDomainChar(domain[i]) {
      if i < d {
        assert domain[i] == domain[..d][i];
      } else if i > d {
        assert domain[i] == domain[d + 1..][i - d - 1];
      }
    }
    var last := LastIndex(domain, '.');
    forall j | d < j < |domain| ensures domain[j] != '.' {
      assert domain[j] == domain[d + 1..][j - d - 1];
      assert IsAsciiLetter(domain[d + 1..][j - d - 1]);
    }
    if last.Some? {
      forall j | last.value < j < |domain| ensures domain[j] != '.' {
        assert domain[j] == domain[last.value + 1..][j - last.value - 1];
      }
    }
  }

  /** Every string the pattern matches is accepted by the validator. */
  lemma ValidatorComplete(s: string)
    requires MatchesEmailPattern(s)
    ensures IsValidEmail(s)
  {
    var at, dot :| MatchesAt(s, at, dot);
    PatternAtIsFirst(s, at, dot);
    PatternDotIsLast(s, at, dot);
    var domain := s[at + 1..];
    var d := dot - at - 1;
    assert domain[d + 1..] == s[dot + 1..];
  }

  /** The validator accepts exactly the strings the pattern matches. */
  lemma ValidatorMatchesPattern(s: string)
    ensures IsValidEmail(s) <==> MatchesEmailPattern(s)
  {
    if IsValidEmail(s) {
      ValidatorSound(s);
    }
    if MatchesEmailPattern(s) {
      ValidatorComplete(s);
    }
  }

  /** An accepted address holds exactly one `@`. */
  lemma ValidEmailHasOneAt(s: string)
    requires IsValidEmail(s)
    ensures JsText.Count(s, '@') == 1
  {
    var at := FirstIndex(s, '@').value;
    var domain := s[at + 1..];
    assert s == s[..at] + ['@'] + domain;
    assert '@' !in domain by {
      forall i | 0 <= i < |domain| ensures domain[i] != '@' {
        assert IsDomainChar(domain[i]);
      }
    }
    JsText.CountAbsent(s[..at], '@');
    JsText.CountAbsent(domain, '@');
    JsText.CountAppend(s[..at] + ['@'], domain, '@');
    JsText.CountAppend(s[..at], ['@'], '@');
  }

  /** The parts of an accepted address: a non-empty local part of local characters
      before its `@`, and after it a domain whose top level (after its last `.`) is
      two or more ASCII letters with at least one character before that dot. */
  lemma ValidEmailParts(s: string)
    requires IsValidEmail(s)
    ensures exists local, host, top ::
              && s == local + "@" + host + "." + top
              && |local| >= 1 && AllLocal(local)
              && |host| >= 1 && AllDomain(host)
              && |top| >= 2 && AllLetters(top)
  {
    ValidatorSound(s);
    var at, dot :| MatchesAt(s, at, dot);
    assert s == s[..at] + "@" + s[at + 1..dot] + "." + s[dot + 1..];
  }

  lemma UpperCaseAddressValid()
    ensures IsValidEmail("ADA@X.com")
  {
    var s := "ADA@X.com";
    assert s[..3] == "ADA" && s[4..5] == "X" && s[6..] == "com";
    assert MatchesAt(s, 3, 5);
    ValidatorComplete(s);
  }

  lemma LowerCaseAddressValid()
    ensures IsValidEmail("ada@x.com")
  {
    var s := "ada@x.com";
    assert s[..3] == "ada" && s[4..5] == "x" && s[6..] == "com";
    assert MatchesAt(s, 3, 5);
    ValidatorComplete(s);
  }

  /** The check is exact: it does not fold case, so `ADA@X.com` and `ada@x.com` are two
      different, both acceptable addresses. */
  lemma CaseIsSignificant()
    ensures IsValidEmail("ADA@X.com") && IsValidEmail("ada@x.com")
    ensures "ADA@X.com" != "ada@x.com"
  {
    UpperCaseAddressValid();
    LowerCaseAddressValid();
    assert "ADA@X.com"[0] != "ada@x.com"[0];
  }
}
