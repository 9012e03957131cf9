/**
 * The admin-password rules of the web client's account settings page:
 * `validatePassword` and the chain of checks `handleChangeLoginDetails` runs
 * before it sends the change of login details to the server.
 */
module PasswordPolicy {
  import opened JsStrings
  import RouterSession

  const MinLength: nat := 6

  /** The literal from which the special-character class is built. */
  const SpecialChars: string := "~!@#$%^&*()-_=+\\|[{]};:'\"<,>.?/"

  // ---------------------------------------------------------------------------
  // Building the special-character class
  // ---------------------------------------------------------------------------

  /** Characters matched by `/[-[\]{}()*+?.,\\^$|#\s]/`, which get a backslash in front of them. */
  predicate NeedsClassEscape(c: char) {
    c in "-[]{}()*+?.,\\^$|#" || IsJsWhitespace(c)
  }

  /**
   * A character-class body in which every backslash starts an identity escape
   * of a character that was escaped on purpose, and no unescaped character
   * can open a range, close the class or negate it.
   */
  predicate PlainClassBody(body: string)
    decreases |body|
  {
    || body == []
    || (|body| >= 2 && body[0] == '\\' && NeedsClassEscape(body[1]) && PlainClassBody(body[2..]))
    || (!NeedsClassEscape(body[0]) && PlainClassBody(body[1..]))
  }

  /** `s.replace(/[-[\]{}()*+?.,\\^$|#\s]/g, "\\$&")`. */
  function EscapeForClass(s: string): (body: string)
    ensures PlainClassBody(body)
  {
    if s == [] then []
    else
      var rest := EscapeForClass(s[1..]);
      if NeedsClassEscape(s[0]) then
        assert (['\\', s[0]] + rest)[2..] == rest;
        ['\\', s[0]] + rest
      else
        assert ([s[0]] + rest)[1..] == rest;
        [s[0]] + rest
  }

  /** The characters a plain class body lists, in order: `\x` stands for `x`. */
  function ClassMembers(body: string): string
    decreases |body|
  {
    if body == [] then []
    else if body[0] == '\\' && |body| >= 2 then [body[1]] + ClassMembers(body[2..])
    else [body[0]] + ClassMembers(body[1..])
  }

  /** Reading back an escaped class body gives exactly the characters that were escaped. */
  lemma {:induction false} ClassMembersOfEscaped(s: string)
    ensures ClassMembers(EscapeForClass(s)) == s
  {
    if s != [] {
      ClassMembersOfEscaped(s[1..]);
      var rest := EscapeForClass(s[1..]);
      if NeedsClassEscape(s[0]) {
        assert (['\\', s[0]] + rest)[2..] == rest;
      } else {
        assert s[0] != '\\';
        assert ([s[0]] + rest)[1..] == rest;
      }
    }
  }

  /** The class the `containsSpecialChar` regular expression matches. */
  function SpecialClass(): string {
    ClassMembers(EscapeForClass(SpecialChars))
  }

  /** The special-character class is exactly the characters of the literal. */
  lemma SpecialClassIsLiteral()
    ensures SpecialClass() == SpecialChars
  {
    ClassMembersOfEscaped(SpecialChars);
  }

  predicate IsAsciiPunctuation(c: char) {
    ('!' <= c <= '/') || (':' <= c <= '@') || ('[' <= c <= '`') || ('{' <= c <= '~')
  }

  /** Every character of the literal is ASCII punctuation other than the backtick. */
  lemma SpecialCharsArePunctuation(i: nat)
    requires i < |SpecialChars|
    ensures IsAsciiPunctuation(SpecialChars[i]) && SpecialChars[i] != '`'
  {
    if i < 8 {
      assert i == 0 || i == 1 || i == 2 || i == 3 || i == 4 || i == 5 || i == 6 || i == 7;
    } else if i < 16 {
      assert i == 8 || i == 9 || i == 10 || i == 11 || i == 12 || i == 13 || i == 14 || i == 15;
    } else if i < 24 {
      assert i == 16 || i == 17 || i == 18 || i == 19 || i == 20 || i == 21 || i == 22 || i == 23;
    } else {
      assert i == 24 || i == 25 || i == 26 || i == 27 || i == 28 || i == 29 || i == 30;
    }
  }

  /** Position in the literal of each ASCII punctuation character other than the backtick. */
  function SpecialIndex(c: char): nat {
    match c
    case '~' => 0   case '!' => 1   case '@' => 2   case '#' => 3   case '$' => 4
    case '%' => 5   case '^' => 6   case '&' => 7   case '*' => 8   case '(' => 9
    case ')' => 10  case '-' => 11  case '_' => 12  case '=' => 13  case '+' => 14
    case '\\' => 15  case '|' => 16  case '[' => 17  case '{' => 18  case ']' => 19
    case '}' => 20  case ';' => 21  case ':' => 22  case '\'' => 23 case '"' => 24
    case '<' => 25  case ',' => 26  case '>' => 27  case '.' => 28  case '?' => 29
    case '/' => 30  case _ => 31
  }

  /** The punctuation from `!` to `'` is in the literal. */
  lemma QuotePunctuationIsSpecialChar(c: char)
    requires '!' <= c <= '\''
    ensures SpecialIndex(c) < |SpecialChars| && SpecialChars[SpecialIndex(c)] == c
  {
    assert c as int in {33, 34, 35, 36, 37, 38, 39};
  }

  /** The punctuation from `(` to `/` is in the literal. */
  lemma OperatorPunctuationIsSpecialChar(c: char)
    requires '(' <= c <= '/'
    ensures SpecialIndex(c) < |SpecialChars| && SpecialChars[SpecialIndex(c)] == c
  {
    assert c as int in {40, 41, 42, 43, 44, 45, 46, 47};
  }

  /** The punctuation from `:` to `@` is in the literal. */
  lemma ComparisonPunctuationIsSpecialChar(c: char)
    requires ':' <= c <= '@'
    ensures SpecialIndex(c) < |SpecialChars| && SpecialChars[SpecialIndex(c)] == c
  {
    assert c as int in {58, 59, 60, 61, 62, 63, 64};
  }

  /** The punctuation from `[` to `_` is in the literal. */
  lemma BracketPunctuationIsSpecialChar(c: char)
    requires '[' <= c <= '_'
    ensures SpecialIndex(c) < |SpecialChars| && SpecialChars[SpecialIndex(c)] == c
  {
    assert c as int in {91, 92, 93, 94, 95};
  }

  /** Every ASCII punctuation character other than the backtick is in the literal. */
  lemma PunctuationIsSpecialChar(c: char)
    requires IsAsciiPunctuation(c) && c != '`'
    ensures SpecialIndex(c) < |SpecialChars| && SpecialChars[SpecialIndex(c)] == c
  {
    if c <= '\'' {
      QuotePunctuationIsSpecialChar(c);
    } else if c <= '/' {
      OperatorPunctuationIsSpecialChar(c);
    } else if c <= '@' {
      ComparisonPunctuationIsSpecialChar(c);
    } else if c <= '_' {
      BracketPunctuationIsSpecialChar(c);
    } else {
      assert c as int in {123, 124, 125, 126};
    }
  }

  /**
   * The special class is all of ASCII punctuation except the backtick; it
   * holds the backslash, `|` and both quote marks, and no space.
   */
  lemma SpecialClassIsPunctuationButBacktick(c: char)
    ensures c in SpecialClass() <==> IsAsciiPunctuation(c) && c != '`'
    ensures '\\' in SpecialClass() && '|' in SpecialClass() && '\'' in SpecialClass() && '"' in SpecialClass()
    ensures ' ' !in SpecialClass()
  {
    SpecialClassIsLiteral();
    if c in SpecialChars {
      var i :| 0 <= i < |SpecialChars| && SpecialChars[i] == c;
      SpecialCharsArePunctuation(i);
    }
    if IsAsciiPunctuation(c) && c != '`' {
      PunctuationIsSpecialChar(c);
    }
    PunctuationIsSpecialChar('\\');
    PunctuationIsSpecialChar('|');
    PunctuationIsSpecialChar('\'');
    PunctuationIsSpecialChar('"');
    if ' ' in SpecialChars {
      var i :| 0 <= i < |SpecialChars| && SpecialChars[i] == ' ';
      SpecialCharsArePunctuation(i);
    }
  }

  // ---------------------------------------------------------------------------
  // validatePassword
  // ---------------------------------------------------------------------------

  datatype CharClass = Digit | Upper | Lower | Special

  predicate InClass(c: char, k: CharClass) {
    match k
    case Digit => '0' <= c <= '9'
    case Upper => 'A' <= c <= 'Z'
    case Lower => 'a' <= c <= 'z'
    case Special => c in SpecialClass()
  }

  /** `regex.test(password)` for the regular expression of class `k`. */
  predicate Contains(password: string, k: CharClass) {
    exists i :: 0 <= i < |password| && InClass(password[i], k)
  }

  /** Two different classes both occur in the password. */
  predicate TwoClassesPresent(password: string) {
    exists k1: CharClass, k2: CharClass :: k1 != k2 && Contains(password, k1) && Contains(password, k2)
  }

  /** The admin-password policy: at least six characters and at least two classes. */
  predicate MeetsPolicy(password: string) {
    |password| >= MinLength && TwoClassesPresent(password)
  }

  /**
   * `validatePassword`: too short is refused whatever the content; otherwise
   * one point per class that occurs, and two points pass.
   */
  method ValidatePassword(password: string) returns (valid: bool)
    ensures |password| < MinLength ==> !valid
    ensures valid <==> MeetsPolicy(password)
  {
    if |password| < MinLength {
      return false;
    }
    var combinations := 0;
    if Contains(password, Digit) { combinations := combinations + 1; }
    if Contains(password, Upper) { combinations := combinations + 1; }
    if Contains(password, Lower) { combinations := combinations + 1; }
    if Contains(password, Special) { combinations := combinations + 1; }
    assert 0 <= combinations <= 4;
    valid := combinations >= 2;
  }

  /** A space or any non-ASCII character counts towards no class. */
  lemma NoClassForSpaceOrNonAscii(c: char, k: CharClass)
    requires c == ' ' || c > '\U{007F}'
    ensures !InClass(c, k)
  {
    SpecialClassIsPunctuationButBacktick(c);
  }

  // ---------------------------------------------------------------------------
  // handleChangeLoginDetails
  // ---------------------------------------------------------------------------

  /** Whether the form is sent to the server, or the message of the single error shown. */
  datatype Submission = Send | Refuse(message: string)

  const PolicyMessage: string := "Password does not meet the requirements"
  const SameMessage: string := "New password cannot be the same as the current password"
  const ReversedMessage: string := "New password cannot be the reverse of the current password"
  const MismatchMessage: string := "New password and confirmation do not match"

  /**
   * The guards of `handleChangeLoginDetails`, in their order: the first that
   * fails decides the one error shown; the request is sent only when all pass.
   */
  function HandleChangeLoginDetails(currentPassword: string, newPassword: string, confirmPassword: string)
    : (s: Submission)
    ensures s == Send <==>
              && MeetsPolicy(newPassword)
              && newPassword != currentPassword
              && newPassword != Reverse(currentPassword)
              && newPassword == confirmPassword
    ensures |newPassword| < MinLength ==> s == Refuse(PolicyMessage)
    ensures s.Refuse? ==> s.message in {PolicyMessage, SameMessage, ReversedMessage, MismatchMessage}
  {
    if !MeetsPolicy(newPassword) then Refuse(PolicyMessage)
    else if newPassword == currentPassword then Refuse(SameMessage)
    else if newPassword == Reverse(currentPassword) then Refuse(ReversedMessage)
    else if newPassword != confirmPassword then Refuse(MismatchMessage)
    else Send
  }

  /** The error shown names the first guard, in the order policy, sameness, reversal, confirmation, that fails. */
  lemma RefusalNamesFirstFailingGuard(currentPassword: string, newPassword: string, confirmPassword: string)
    ensures var s := HandleChangeLoginDetails(currentPassword, newPassword, confirmPassword);
            && (s == Refuse(PolicyMessage) <==> !MeetsPolicy(newPassword))
            && (s == Refuse(SameMessage) <==> MeetsPolicy(newPassword) && newPassword == currentPassword)
            && (s == Refuse(ReversedMessage) <==>
                  MeetsPolicy(newPassword) && newPassword != currentPassword && newPassword == Reverse(currentPassword))
            && (s == Refuse(MismatchMessage) <==>
                  MeetsPolicy(newPassword) && newPassword != currentPassword && newPassword != Reverse(currentPassword)
                  && newPassword != confirmPassword)
  {
  }

  /** The reversal guard is symmetric: a sent password reversed is not the current one either. */
  lemma SentPasswordIsNotReversalOfCurrent(currentPassword: string, newPassword: string, confirmPassword: string)
    requires HandleChangeLoginDetails(currentPassword, newPassword, confirmPassword) == Send
    ensures Reverse(newPassword) != currentPassword
  {
    if Reverse(newPassword) == currentPassword {
      ReverseReverse(newPassword);
    }
  }

  /**
   * Every request the client sends from its form (whose fields are all
   * required, so the current password is not empty) passes the checks the
   * server declares for a change of login details.
   */
  lemma SentRequestPassesServerChecks(currentPassword: string, newPassword: string, confirmPassword: string)
    requires currentPassword != ""
    requires HandleChangeLoginDetails(currentPassword, newPassword, confirmPassword) == Send
    ensures RouterSession.ChangeRequestValid(currentPassword, newPassword, confirmPassword)
  {
  }
}
