/**
  The email field's format check, the regular expression
  `^[a-zA-Z0-9._%+-]+@[a-zA-Z0-9.-]+\.[a-zA-Z]{2,}$`.
  `MatchesPattern` states what the expression accepts, with the backtracking split
  point written as an existential; `IsEmail` is a direct recogniser proved equal to it.
*/
module EmailPattern {

  import opened Wrappers

  predicate IsAsciiLetter(c: char) {
    'a' <= c <= 'z' || 'A' <= c <= 'Z'
  }

  predicate IsAsciiDigit(c: char) {
    '0' <= c <= '9'
  }

  /** The class `[a-zA-Z0-9._%+-]` of the part before the at sign. */
  predicate IsLocalChar(c: char) {
    IsAsciiLetter(c) || IsAsciiDigit(c) || c == '.' || c == '_' || c == '%' || c == '+' || c == '-'
  }

  /** The class `[a-zA-Z0-9.-]` of the domain. */
  predicate IsDomainChar(c: char) {
    IsAsciiLetter(c) || IsAsciiDigit(c) || c == '.' || c == '-'
  }

  predicate AllLocal(s: string) {
    forall i :: 0 <= i < |s| ==> IsLocalChar(s[i])
  }

  predicate AllDomain(s: string) {
    forall i :: 0 <= i < |s| ==> IsDomainChar(s[i])
  }

  predicate AllLetters(s: string) {
    forall i :: 0 <= i < |s| ==> IsAsciiLetter(s[i])
  }

  /**
    The match that puts the `@` at index `at` and the literal `\.` at index `dot`:
    a non-empty local part, a non-empty domain and a top-level domain of at least
    two letters, which together cover the whole input (`^` … `$`).
  */
  predicate SplitAt(s: string, at: int, dot: int) {
    && 0 < at < dot && dot + 2 < |s|
    && s[at] == '@' && s[dot] == '.'
    && AllLocal(s[..at])
    && at + 1 < dot && AllDomain(s[at + 1..dot])
    && AllLetters(s[dot + 1..])
  }

  /** The regular expression accepts `s`: some split point makes it match. */
  predicate MatchesPattern(s: string) {
    exists at, dot | 0 <= at < |s| && 0 <= dot < |s| :: SplitAt(s, at, dot)
  }

  /** Index of the first occurrence of `c` in `s`. */
  function IndexOf(s: string, c: char): (r: Option<nat>)
    ensures r.None? <==> c !in s
    ensures r.Some? ==> r.value < |s| && s[r.value] == c && c !in s[..r.value]
  {
    if |s| == 0 then None
    else if s[0] == c then Some(0)
    else match IndexOf(s[1..], c)
      case None => None
      case Some(i) =>
        assert s[1..][..i] == s[1..i + 1];
        Some(i + 1)
  }

  /** Index of the last occurrence of `c` in `s`. */
  function LastIndexOf(s: string, c: char): (r: Option<nat>)
    ensures r.None? <==> c !in s
    ensures r.Some? ==> r.value < |s| && s[r.value] == c && c !in s[r.value + 1..]
  {
    if |s| == 0 then None
    else if s[|s| - 1] == c then Some(|s| - 1)
    else
      var r := LastIndexOf(s[..|s| - 1], c);
      if r.Some? then
        assert s[r.value + 1..] == s[..|s| - 1][r.value + 1..] + [s[|s| - 1]];
        r
      else r
  }

  /**
    Recognises the email pattern without backtracking. Neither character class of
    the local part and the domain contains `@`, so the only possible `@` is the
    first one; the top-level domain contains no dot, so the only possible `\.` is
    the last dot.
  */
  function IsEmail(s: string): (ok: bool)
    ensures ok <==> MatchesPattern(s)
  {
    match IndexOf(s, '@')
    case None =>
      NoAtNoMatch(s);
      false
    case Some(at) =>
      match LastIndexOf(s, '.')
      case None =>
        NoDotNoMatch(s);
        false
      case Some(dot) =>
        var ok := 0 < at && at + 1 < dot && dot + 2 < |s|
          && AllLocal(s[..at]) && AllDomain(s[at + 1..dot]) && AllLetters(s[dot + 1..]);
        if ok then
          assert SplitAt(s, at, dot);
          true
        else
          OnlySplit(s, at, dot);
          false
  }

  lemma NoAtNoMatch(s: string)
    requires '@' !in s
    ensures !MatchesPattern(s)
  {
  }

  lemma NoDotNoMatch(s: string)
    requires '.' !in s
    ensures !MatchesPattern(s)
  {
  }

  /**
    Every match splits at the first `@` and the last dot: the local part has no `@`
    and the top-level domain has no dot.
  */
  lemma OnlySplit(s: string, at: nat, dot: nat)
    requires at < |s| && s[at] == '@' && '@' !in s[..at]
    requires dot < |s| && s[dot] == '.' && '.' !in s[dot + 1..]
    ensures forall a, d | 0 <= a < |s| && 0 <= d < |s| :: SplitAt(s, a, d) ==> a == at && d == dot
  {
    forall a, d | 0 <= a < |s| && 0 <= d < |s| && SplitAt(s, a, d)
      ensures a == at && d == dot
    {
      assert at < a ==> s[..a][at] == '@' && !IsLocalChar('@');
    }
  }

  /**
    Examples. The split may fall at any dot of the domain part, so dotted local
    parts and sub-domains are accepted; a one-letter top-level domain, a missing
    domain or local part, a second `@` and a digit in the top-level domain are not.
  */
  lemma AcceptsDottedParts()
    ensures IsEmail("jane.doe@mail.example.com")
  {
    var s := "jane.doe@mail.example.com";
    assert SplitAt(s, 8, 21);
  }

  lemma AcceptsSymbols()
    ensures IsEmail("a+b%c@x-y.io")
  {
    var s := "a+b%c@x-y.io";
    assert SplitAt(s, 5, 9);
  }

  lemma RejectsOneLetterTld()
    ensures !IsEmail("a@b.c")
  {
  }

  lemma RejectsEmptyLocalPart()
    ensures !IsEmail("@b.co")
  {
  }

  lemma RejectsEmptyDomain()
    ensures !IsEmail("a@.co")
  {
  }

  lemma RejectsSecondAt()
    ensures !IsEmail("a@b@c.co")
  {
    var s := "a@b@c.co";
    assert s[2..5][1] == '@' && !IsDomainChar('@');
  }

  lemma RejectsDigitInTld()
    ensures !IsEmail("a@b.c0m")
  {
  }

  lemma RejectsMissingDot()
    ensures !IsEmail("a@bco")
  {
  }
}
