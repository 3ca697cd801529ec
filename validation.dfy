/**
  The title constraint `@Title`, checked by TitleValidator with the Java pattern
  `^[A-Z].{2,}$\n` and `Matcher.matches()` (the whole input must be consumed).

  Java semantics used here: `[A-Z]` is the ASCII range; `.` (no DOTALL flag) matches any
  character except a line terminator; `$` (no MULTILINE flag) succeeds at the end of the input
  or right before a line terminator that ends it; the `\n` after it is a literal newline that must
  then be consumed. So the title has to END with a newline.
 */
module TitleValidator {
  import opened Wrappers

  /** Java's line terminators: `\n`, `\r`, U+0085, U+2028, U+2029. */
  predicate IsLineTerminator(c: char) {
    c == '\n' || c == '\r' || c == '\U{85}' || c == '\U{2028}' || c == '\U{2029}'
  }

  predicate IsUpperAscii(c: char) {
    'A' <= c <= 'Z'
  }

  /** The regex `.` outside DOTALL mode. */
  predicate MatchesDot(c: char) {
    !IsLineTerminator(c)
  }

  /**
    `.{n,}$\n` matched against the whole of `s`. Once the dots are used up the rest must be
    exactly the newline: `$` holds before a final terminator, and the literal `\n` consumes it.
    (`$` also refuses a `\n` preceded by `\r`, but the preceding character was matched by `.`
    or by `[A-Z]`, so it is never `\r`.)
   */
  predicate MatchesDotsThenNewline(s: string, n: nat)
    decreases |s|
  {
    if n > 0 then
      |s| > 0 && MatchesDot(s[0]) && MatchesDotsThenNewline(s[1..], n - 1)
    else
      s == "\n" || (|s| > 0 && MatchesDot(s[0]) && MatchesDotsThenNewline(s[1..], 0))
  }

  /** `^[A-Z].{2,}$\n` matched against the whole of `s`. */
  predicate MatchesTitlePattern(s: string) {
    |s| > 0 && IsUpperAscii(s[0]) && MatchesDotsThenNewline(s[1..], 2)
  }

  /** TitleValidator.isValid: not null and the whole title matches the pattern. */
  predicate IsValid(title: Option<string>) {
    title.Some? && MatchesTitlePattern(title.value)
  }

  /** What `.{n,}$\n` accepts: at least n non-terminators, then one final newline. */
  lemma {:induction false} DotsThenNewlineExactly(s: string, n: nat)
    ensures MatchesDotsThenNewline(s, n) <==>
      |s| >= n + 1 && s[|s| - 1] == '\n' && forall i :: 0 <= i < |s| - 1 ==> MatchesDot(s[i])
    decreases |s|
  {
    if |s| > 0 {
      DotsThenNewlineExactly(s[1..], if n > 0 then n - 1 else 0);
      if n == 0 && s != "\n" && |s| >= 1 && s[|s| - 1] == '\n'
         && (forall i :: 0 <= i < |s| - 1 ==> MatchesDot(s[i])) {
        assert |s| >= 2;
        assert MatchesDot(s[0]);
        assert forall i :: 0 <= i < |s[1..]| - 1 ==> s[1..][i] == s[i + 1];
      }
      if n > 0 && |s| >= n + 1 && s[|s| - 1] == '\n'
         && (forall i :: 0 <= i < |s| - 1 ==> MatchesDot(s[i])) {
        assert MatchesDot(s[0]);
        assert forall i :: 0 <= i < |s[1..]| - 1 ==> s[1..][i] == s[i + 1];
      }
    }
  }

  /**
    The acceptance set of the title predicate, exactly: an ASCII capital, then at least two
    characters that are not line terminators, then one final newline.
   */
  lemma TitleAcceptedExactly(s: string)
    ensures IsValid(Some(s)) <==>
      && |s| >= 4
      && IsUpperAscii(s[0])
      && s[|s| - 1] == '\n'
      && forall i :: 1 <= i < |s| - 1 ==> !IsLineTerminator(s[i])
  {
    if |s| > 0 {
      DotsThenNewlineExactly(s[1..], 2);
      assert forall i :: 1 <= i < |s| - 1 ==> s[i] == s[1..][i - 1];
    }
  }

  /** A null title is rejected. */
  lemma NullTitleRejected()
    ensures !IsValid(None)
  {
  }

  /** Every accepted title starts with A-Z, has at least four characters and ends in a newline. */
  lemma AcceptedTitleShape(s: string)
    requires IsValid(Some(s))
    ensures |s| >= 4 && IsUpperAscii(s[0]) && s[|s| - 1] == '\n'
  {
    TitleAcceptedExactly(s);
  }

  /** A title without a trailing newline, such as "A book", is rejected. */
  lemma TitleWithoutNewlineRejected(s: string)
    requires |s| == 0 || s[|s| - 1] != '\n'
    ensures !IsValid(Some(s))
  {
    TitleAcceptedExactly(s);
  }

  lemma ExampleTitles()
    ensures !IsValid(Some("A book"))
    ensures IsValid(Some("A book\n"))
  {
    TitleWithoutNewlineRejected("A book");
    TitleAcceptedExactly("A book\n");
  }

  /** `^[A-Z].{2,}$` under `matches()`: an ASCII capital and at least two non-terminators. */
  predicate MatchesTitlePatternIntended(s: string) {
    |s| >= 3 && IsUpperAscii(s[0]) && forall i :: 1 <= i < |s| ==> MatchesDot(s[i])
  }

  /** The title predicate without the stray trailing newline. */
  predicate IsValidIntended(title: Option<string>) {
    title.Some? && MatchesTitlePatternIntended(title.value)
  }

  /**
    The written pattern accepts exactly the intended titles followed by a newline, so no title
    that the intended pattern accepts is accepted as written.
   */
  lemma WrittenIsIntendedPlusNewline(s: string)
    ensures IsValid(Some(s + "\n")) <==> IsValidIntended(Some(s))
    ensures IsValidIntended(Some(s)) ==> !IsValid(Some(s))
  {
    var t := s + "\n";
    TitleAcceptedExactly(t);
    TitleAcceptedExactly(s);
    assert forall i :: 1 <= i < |t| - 1 ==> t[i] == s[i];
    if IsValidIntended(Some(s)) {
      assert !IsLineTerminator(s[|s| - 1]);
    }
  }

  lemma ExampleTitlesIntended()
    ensures IsValidIntended(Some("A book"))
    ensures IsValidIntended(Some("Dune"))
    ensures !IsValidIntended(Some("dune"))
    ensures !IsValidIntended(Some("Du"))
  {
  }
}

/**
  The author-name pattern `^[A-Z][a-z]* [A-Z][a-z]*$` of AuthorNameValidator, again under
  `matches()`. `$` consumes nothing, so a trailing terminator is never part of a full match.
 */
module AuthorNameValidator {
  import opened Wrappers
  import TitleValidator

  predicate IsLowerAscii(c: char) {
    'a' <= c <= 'z'
  }

  /** `[a-z]*` against the whole of `s`. */
  predicate MatchesLowers(s: string) {
    s == [] || (IsLowerAscii(s[0]) && MatchesLowers(s[1..]))
  }

  /** `[A-Z][a-z]*` against the whole of `s`. */
  predicate MatchesWord(s: string) {
    |s| > 0 && TitleValidator.IsUpperAscii(s[0]) && MatchesLowers(s[1..])
  }

  /** `[a-z]* [A-Z][a-z]*` against the whole of `s`. */
  predicate MatchesLowersThenSecondWord(s: string) {
    |s| > 0 &&
    ((s[0] == ' ' && MatchesWord(s[1..])) ||
     (IsLowerAscii(s[0]) && MatchesLowersThenSecondWord(s[1..])))
  }

  /** `^[A-Z][a-z]* [A-Z][a-z]*$` against the whole of `s`. */
  predicate MatchesNamePattern(s: string) {
    |s| > 0 && TitleValidator.IsUpperAscii(s[0]) && MatchesLowersThenSecondWord(s[1..])
  }

  /** AuthorNameValidator.isValid: not null and the whole name matches the pattern. */
  predicate IsValid(name: Option<string>) {
    name.Some? && MatchesNamePattern(name.value)
  }

  lemma {:induction false} LowersExactly(s: string)
    ensures MatchesLowers(s) <==> forall i :: 0 <= i < |s| ==> IsLowerAscii(s[i])
  {
    if s != [] {
      LowersExactly(s[1..]);
      assert forall i :: 1 <= i < |s| ==> s[i] == s[1..][i - 1];
    }
  }

  /** `[A-Z][a-z]*` character by character. */
  lemma WordExactly(w: string)
    ensures MatchesWord(w) <==>
      |w| > 0 && TitleValidator.IsUpperAscii(w[0]) && forall i :: 1 <= i < |w| ==> IsLowerAscii(w[i])
  {
    if |w| > 0 {
      LowersExactly(w[1..]);
      assert forall i :: 1 <= i < |w| ==> w[i] == w[1..][i - 1];
    }
  }

  /** A match of `[a-z]* [A-Z][a-z]*` has a space at which it splits into lowers and a word ... */
  lemma {:induction false} SecondWordFound(s: string)
    requires MatchesLowersThenSecondWord(s)
    ensures exists k :: 0 <= k < |s| && s[k] == ' ' && MatchesLowers(s[..k]) && MatchesWord(s[k + 1..])
  {
    if s[0] == ' ' && MatchesWord(s[1..]) {
      assert s[..0] == [];
      assert s[0 + 1..] == s[1..];
    } else {
      SecondWordFound(s[1..]);
      var k :| 0 <= k < |s[1..]| && s[1..][k] == ' '
        && MatchesLowers(s[1..][..k]) && MatchesWord(s[1..][k + 1..]);
      assert s[..k + 1][1..] == s[1..][..k];
      assert s[1..][k + 1..] == s[k + 2..];
      assert MatchesLowers(s[..k + 1]);
      assert s[k + 1] == ' ';
    }
  }

  /** ... and every such split is a match. */
  lemma {:induction false} SecondWordMatches(s: string, k: nat)
    requires k < |s| && s[k] == ' ' && MatchesLowers(s[..k]) && MatchesWord(s[k + 1..])
    ensures MatchesLowersThenSecondWord(s)
  {
    if k > 0 {
      assert s[..k][0] == s[0];
      assert s[..k][1..] == s[1..][..k - 1];
      assert s[1..][k - 1] == ' ';
      assert s[1..][k - 1 + 1..] == s[k + 1..];
      SecondWordMatches(s[1..], k - 1);
    } else {
      assert s[1..] == s[k + 1..];
    }
  }

  /** `[a-z]* [A-Z][a-z]*` holds exactly when `s` splits at a space into lowers and a word. */
  lemma LowersThenSecondWordExactly(s: string)
    ensures MatchesLowersThenSecondWord(s) <==>
      exists k :: 0 <= k < |s| && s[k] == ' ' && MatchesLowers(s[..k]) && MatchesWord(s[k + 1..])
  {
    if MatchesLowersThenSecondWord(s) {
      SecondWordFound(s);
    }
    if exists k :: 0 <= k < |s| && s[k] == ' ' && MatchesLowers(s[..k]) && MatchesWord(s[k + 1..]) {
      var k :| 0 <= k < |s| && s[k] == ' ' && MatchesLowers(s[..k]) && MatchesWord(s[k + 1..]);
      SecondWordMatches(s, k);
    }
  }

  /** Two words separated by one space. */
  predicate IsTwoWords(s: string) {
    exists k :: 0 < k < |s| && s[k] == ' ' && MatchesWord(s[..k]) && MatchesWord(s[k + 1..])
  }

  /** A name the pattern accepts splits at a space into two words. */
  lemma AcceptedIsTwoWords(s: string)
    requires IsValid(Some(s))
    ensures IsTwoWords(s)
  {
    SecondWordFound(s[1..]);
    var k :| 0 <= k < |s[1..]| && s[1..][k] == ' '
      && MatchesLowers(s[1..][..k]) && MatchesWord(s[1..][k + 1..]);
    assert s[..k + 1][1..] == s[1..][..k];
    assert s[1..][k + 1..] == s[k + 2..];
    assert s[k + 1] == ' ' && MatchesWord(s[..k + 1]);
  }

  /** Two words separated by one space are accepted. */
  lemma TwoWordsAccepted(s: string, k: nat)
    requires 0 < k < |s| && s[k] == ' ' && MatchesWord(s[..k]) && MatchesWord(s[k + 1..])
    ensures IsValid(Some(s))
  {
    assert s[..k][1..] == s[1..][..k - 1];
    assert s[1..][k - 1] == ' ';
    assert s[1..][k - 1 + 1..] == s[k + 1..];
    SecondWordMatches(s[1..], k - 1);
  }

  /** The author predicate accepts exactly `[A-Z][a-z]* [A-Z][a-z]*`: two capitalised words. */
  lemma AuthorAcceptedExactly(s: string)
    ensures IsValid(Some(s)) <==> IsTwoWords(s)
  {
    if IsValid(Some(s)) {
      AcceptedIsTwoWords(s);
    }
    if IsTwoWords(s) {
      var k :| 0 < k < |s| && s[k] == ' ' && MatchesWord(s[..k]) && MatchesWord(s[k + 1..]);
      TwoWordsAccepted(s, k);
    }
  }

  /** Around the space of a two-word split every character is a letter, and both initials are upper-case. */
  lemma SplitLetters(s: string, k: nat)
    requires 0 < k < |s| && s[k] == ' ' && MatchesWord(s[..k]) && MatchesWord(s[k + 1..])
    ensures k + 1 < |s| && TitleValidator.IsUpperAscii(s[0]) && TitleValidator.IsUpperAscii(s[k + 1])
    ensures forall i :: 0 <= i < |s| && i != k ==> TitleValidator.IsUpperAscii(s[i]) || IsLowerAscii(s[i])
  {
    WordExactly(s[..k]);
    WordExactly(s[k + 1..]);
    assert s[..k][0] == s[0];
    assert s[k + 1..][0] == s[k + 1];
    forall i | 0 <= i < |s| && i != k
      ensures TitleValidator.IsUpperAscii(s[i]) || IsLowerAscii(s[i])
    {
      if i < k {
        assert s[i] == s[..k][i];
      } else {
        assert s[i] == s[k + 1..][i - k - 1];
      }
    }
  }

  /** A string with a space at k and nowhere else holds exactly one space. */
  lemma OneSpace(s: string, k: nat)
    requires k < |s| && s[k] == ' '
    requires forall i :: 0 <= i < |s| && i != k ==> s[i] != ' '
    ensures multiset(s)[' '] == 1
  {
    assert s == s[..k] + [s[k]] + s[k + 1..];
    forall i | 0 <= i < k ensures s[..k][i] != ' ' {
      assert s[..k][i] == s[i];
    }
    var after := s[k + 1..];
    forall i | 0 <= i < |after| ensures after[i] != ' ' {
      assert after[i] == s[k + 1 + i];
    }
    assert ' ' !in s[..k];
    assert ' ' !in s[k + 1..];
    assert multiset(s) == multiset(s[..k]) + multiset{s[k]} + multiset(s[k + 1..]);
  }

  /**
    An accepted name has exactly one space, an upper-case first character, an upper-case
    character after every space, at least three characters, and no digit.
   */
  lemma AcceptedAuthorShape(s: string)
    requires IsValid(Some(s))
    ensures multiset(s)[' '] == 1
    ensures |s| >= 3 && TitleValidator.IsUpperAscii(s[0])
    ensures forall j :: 0 <= j < |s| && s[j] == ' ' ==> j + 1 < |s| && TitleValidator.IsUpperAscii(s[j + 1])
    ensures forall i :: 0 <= i < |s| ==> !('0' <= s[i] <= '9')
  {
    AcceptedIsTwoWords(s);
    var k :| 0 < k < |s| && s[k] == ' ' && MatchesWord(s[..k]) && MatchesWord(s[k + 1..]);
    SplitLetters(s, k);
    OneSpace(s, k);
  }

  /** A null name is rejected. */
  lemma NullAuthorRejected()
    ensures !IsValid(None)
  {
  }

  /** Any digit, a lower-case initial of either word or a second space makes a name invalid. */
  lemma AuthorRejections(s: string)
    requires
      || (exists i :: 0 <= i < |s| && '0' <= s[i] <= '9')
      || (|s| > 0 && IsLowerAscii(s[0]))
      || (exists j :: 0 <= j < |s| - 1 && s[j] == ' ' && IsLowerAscii(s[j + 1]))
      || multiset(s)[' '] >= 2
    ensures !IsValid(Some(s))
  {
    if IsValid(Some(s)) {
      AcceptedAuthorShape(s);
    }
  }

  /** "An author" is refused: its second word starts with a lower-case letter. */
  lemma ExampleAuthorRejected()
    ensures !IsValid(Some("An author"))
  {
    var bad := "An author";
    assert bad[2] == ' ' && IsLowerAscii(bad[3]);
    AuthorRejections(bad);
  }

  /** "Frank Herbert" is accepted. */
  lemma ExampleAuthorAccepted()
    ensures IsValid(Some("Frank Herbert"))
  {
    var good := "Frank Herbert";
    WordExactly(good[..5]);
    WordExactly(good[6..]);
    TwoWordsAccepted(good, 5);
  }

  /** A name the author pattern accepts ends in a letter, so the title pattern refuses it. */
  lemma NoAuthorNameIsATitle(s: string)
    requires IsValid(Some(s))
    ensures !TitleValidator.IsValid(Some(s))
  {
    AcceptedIsTwoWords(s);
    var k :| 0 < k < |s| && s[k] == ' ' && MatchesWord(s[..k]) && MatchesWord(s[k + 1..]);
    SplitLetters(s, k);
    assert s[|s| - 1] != '\n';
    TitleValidator.TitleWithoutNewlineRejected(s);
  }
}

/**
  The constraints on the fields of a book request (CreateBookRequestDto): `@Title` on the title
  and `@AuthorName` on the author. `@AuthorName` names TitleValidator as its validator, so the
  author field is checked with the title predicate.
 */
module FieldValidation {
  import opened Wrappers
  import TitleValidator
  import AuthorNameValidator

  /** The author field as wired: `@AuthorName` is validated by TitleValidator. */
  predicate ValidateAuthorField(author: Option<string>) {
    TitleValidator.IsValid(author)
  }

  /** The author field checked by the validator written for it. */
  predicate ValidateAuthorFieldIntended(author: Option<string>) {
    AuthorNameValidator.IsValid(author)
  }

  /** Every well-formed author name is refused by the author field as wired. */
  lemma AuthorFieldRefusesEveryName(s: string)
    requires AuthorNameValidator.IsValid(Some(s))
    ensures !ValidateAuthorField(Some(s))
    ensures ValidateAuthorFieldIntended(Some(s))
  {
    AuthorNameValidator.NoAuthorNameIsATitle(s);
  }

  /** A book request as validated: both fields checked as wired. */
  predicate IsValidBookRequest(title: Option<string>, author: Option<string>) {
    TitleValidator.IsValid(title) && ValidateAuthorField(author)
  }

  /** A book request validated with the intended title pattern and the author validator. */
  predicate IsValidBookRequestIntended(title: Option<string>, author: Option<string>) {
    TitleValidator.IsValidIntended(title) && ValidateAuthorFieldIntended(author)
  }

  /** As wired, no request whose author is a well-formed name passes; intended, "Dune" does. */
  lemma BookRequestExamples(title: string, author: string)
    requires AuthorNameValidator.IsValid(Some(author))
    ensures !IsValidBookRequest(Some(title), Some(author))
    ensures IsValidBookRequestIntended(Some("Dune"), Some("Frank Herbert"))
  {
    AuthorFieldRefusesEveryName(author);
    TitleValidator.ExampleTitlesIntended();
    AuthorNameValidator.ExampleAuthorAccepted();
  }
}
