/**
 * The registration form's validators (`frontend/utils/validation.js`): the
 * password character-class checks and the email pattern, the latter written
 * as the grammar its regular expression denotes.
 */
module Validation {
  import opened TextSplit

  /** Some character of `s` satisfies `p` (a character-class `test`). */
  function AnyChar(s: string, p: char -> bool): (r: bool)
    ensures r <==> exists i :: 0 <= i < |s| && p(s[i])
    decreases |s|
  {
    if |s| == 0 then false
    else p(s[0]) || AnyChar(s[1..], p)
  }

  predicate IsUpper(c: char) { 'A' <= c <= 'Z' }
  predicate IsLower(c: char) { 'a' <= c <= 'z' }
  predicate IsDigit(c: char) { '0' <= c <= '9' }

  /** The members of `/[!@#\$%\^&\*]/`. */
  const SpecialCharacters: string := "!@#$%^&*"

  /** A JavaScript string's `length`: UTF-16 code units, two for a character beyond U+FFFF. */
  function Utf16Length(s: string): (r: nat)
    ensures |s| <= r <= 2 * |s|
    decreases |s|
  {
    if |s| == 0 then 0 else (if s[0] as int > 0xFFFF then 2 else 1) + Utf16Length(s[1..])
  }

  lemma {:induction false} Utf16LengthAppend(a: string, b: string)
    ensures Utf16Length(a + b) == Utf16Length(a) + Utf16Length(b)
    decreases |a|
  {
    if |a| == 0 {
      assert a + b == b;
    } else {
      assert (a + b)[0] == a[0] && (a + b)[1..] == a[1..] + b;
      Utf16LengthAppend(a[1..], b);
    }
  }

  /** Below U+10000 every character is one code unit. */
  lemma {:induction false} Utf16LengthBmp(s: string)
    ensures (forall i :: 0 <= i < |s| ==> s[i] as int <= 0xFFFF) ==> Utf16Length(s) == |s|
    decreases |s|
  {
    if |s| > 0 && forall i :: 0 <= i < |s| ==> s[i] as int <= 0xFFFF {
      assert forall i :: 0 <= i < |s[1..]| ==> s[1..][i] == s[i + 1];
      Utf16LengthBmp(s[1..]);
    }
  }

  /** `password.length >= 8`, counted in UTF-16 code units. */
  function IsLongEnough(password: string): (r: bool)
    ensures |password| >= 8 ==> r
    ensures r ==> |password| >= 4
    ensures (forall i :: 0 <= i < |password| ==> password[i] as int <= 0xFFFF) ==> (r <==> |password| >= 8)
  {
    Utf16LengthBmp(password);
    Utf16Length(password) >= 8
  }

  /** Four emoji are eight code units, long enough; three are not. */
  lemma EmojiLength()
    ensures IsLongEnough("\U{1F600}\U{1F600}\U{1F600}\U{1F600}")
    ensures !IsLongEnough("\U{1F600}\U{1F600}\U{1F600}")
  {
    var e := "\U{1F600}";
    assert Utf16Length(e) == 2 by { assert e[1..] == ""; }
    Utf16LengthAppend(e, e);
    Utf16LengthAppend(e + e, e);
    Utf16LengthAppend(e + e + e, e);
    assert e + e + e + e == "\U{1F600}\U{1F600}\U{1F600}\U{1F600}";
  }

  function HasUppercase(password: string): (r: bool)
    ensures r <==> exists i :: 0 <= i < |password| && 'A' <= password[i] <= 'Z'
  {
    AnyChar(password, IsUpper)
  }

  function HasLowercase(password: string): (r: bool)
    ensures r <==> exists i :: 0 <= i < |password| && 'a' <= password[i] <= 'z'
  {
    AnyChar(password, IsLower)
  }

  function HasNumber(password: string): (r: bool)
    ensures r <==> exists i :: 0 <= i < |password| && '0' <= password[i] <= '9'
  {
    AnyChar(password, IsDigit)
  }

  function HasSpecialCharacter(password: string): (r: bool)
    ensures r <==> exists i :: 0 <= i < |password| &&
                     (password[i] == '!' || password[i] == '@' || password[i] == '#' || password[i] == '$' ||
                      password[i] == '%' || password[i] == '^' || password[i] == '&' || password[i] == '*')
  {
    AnyChar(password, (c: char) => c in SpecialCharacters)
  }

  function ValidatePassword(password: string): (r: bool)
    ensures r <==> Utf16Length(password) >= 8 && HasUppercase(password) && HasLowercase(password)
                   && HasNumber(password) && HasSpecialCharacter(password)
  {
    IsLongEnough(password) && HasUppercase(password) && HasLowercase(password)
    && HasNumber(password) && HasSpecialCharacter(password)
  }

  /** Every check looks for the presence of something, so appending keeps a password valid. */
  lemma ValidPasswordStaysValid(password: string, more: string)
    requires ValidatePassword(password)
    ensures ValidatePassword(password + more)
  {
    var s := password + more;
    Utf16LengthAppend(password, more);
    var u :| 0 <= u < |password| && 'A' <= password[u] <= 'Z';
    assert s[u] == password[u];
    var l :| 0 <= l < |password| && 'a' <= password[l] <= 'z';
    assert s[l] == password[l];
    var d :| 0 <= d < |password| && '0' <= password[d] <= '9';
    assert s[d] == password[d];
    var x :| 0 <= x < |password| && password[x] in SpecialCharacters;
    assert s[x] == password[x];
  }

  /** A password with one character of each class and length eight is accepted. */
  lemma SamplePasswordIsValid()
    ensures ValidatePassword("Abcdef1!")
    ensures !ValidatePassword("abcdef1!")
  {
    assert "Abcdef1!"[0] == 'A' && "Abcdef1!"[1] == 'b' && "Abcdef1!"[6] == '1' && "Abcdef1!"[7] == '!';
    assert forall i :: 0 <= i < 8 ==> !('A' <= "abcdef1!"[i] <= 'Z');
    Utf16LengthBmp("Abcdef1!");
  }

  // ------------------------------------------------------------------ email

  /** JavaScript's `\s`: white space and line terminators. */
  predicate IsJsWhitespace(c: char) {
    c == ' ' || c == '\t' || c == '\n' || c == '\r' || c == '\U{000B}' || c == '\U{000C}'
    || c == '\U{00A0}' || c == '\U{1680}' || ('\U{2000}' <= c <= '\U{200A}')
    || c == '\U{2028}' || c == '\U{2029}' || c == '\U{202F}' || c == '\U{205F}'
    || c == '\U{3000}' || c == '\U{FEFF}'
  }

  /** The characters `.` does not match. */
  predicate IsLineTerminator(c: char) {
    c == '\n' || c == '\r' || c == '\U{2028}' || c == '\U{2029}'
  }

  /** `[^<>()[\]\\.,;:\s@"]`. */
  predicate IsAtomChar(c: char) {
    !(c in "<>()[]\\.,;:@\"") && !IsJsWhitespace(c)
  }

  predicate IsAsciiLetter(c: char) { IsUpper(c) || IsLower(c) }

  /** `[a-zA-Z\-0-9]`. */
  predicate IsLabelChar(c: char) { IsAsciiLetter(c) || IsDigit(c) || c == '-' }

  predicate AllChars(s: string, p: char -> bool) {
    forall i :: 0 <= i < |s| ==> p(s[i])
  }

  /** `[^...]+(\.[^...]+)*`: dot-separated non-empty runs of atom characters. */
  predicate DotAtom(s: string) {
    var parts := Split(s, ".");
    forall i :: 0 <= i < |parts| ==> |parts[i]| > 0 && AllChars(parts[i], IsAtomChar)
  }

  /** `".+"`: a quoted string of at least one character other than a line terminator. */
  predicate QuotedString(s: string) {
    |s| >= 3 && s[0] == '"' && s[|s| - 1] == '"'
    && forall i :: 0 < i < |s| - 1 ==> !IsLineTerminator(s[i])
  }

  predicate LocalPart(s: string) {
    DotAtom(s) || QuotedString(s)
  }

  /** `[0-9]{1,3}`. */
  predicate Octet(s: string) {
    1 <= |s| <= 3 && AllChars(s, IsDigit)
  }

  /** `\[[0-9]{1,3}\.[0-9]{1,3}\.[0-9]{1,3}\.[0-9]{1,3}\]`. */
  predicate AddressLiteral(s: string) {
    |s| >= 2 && s[0] == '[' && s[|s| - 1] == ']'
    && var parts := Split(s[1..|s| - 1], ".");
       |parts| == 4 && forall i :: 0 <= i < 4 ==> Octet(parts[i])
  }

  /** `([a-zA-Z\-0-9]+\.)+[a-zA-Z]{2,}`: one or more labels, then a top-level name of letters. */
  predicate HostName(s: string) {
    var parts := Split(s, ".");
    |parts| >= 2
    && (forall i :: 0 <= i < |parts| - 1 ==> |parts[i]| > 0 && AllChars(parts[i], IsLabelChar))
    && |parts[|parts| - 1]| >= 2 && AllChars(parts[|parts| - 1], IsAsciiLetter)
  }

  predicate Domain(s: string) {
    AddressLiteral(s) || HostName(s)
  }

  /**
   * `validateEmail`: the whole string is a local part, an `@`, and a domain,
   * for some choice of the `@`.
   */
  function ValidateEmail(email: string): (r: bool)
    ensures r ==> exists i :: 0 <= i < |email| && email[i] == '@'
  {
    exists i :: 0 <= i < |email| && email[i] == '@' && LocalPart(email[..i]) && Domain(email[i + 1..])
  }

  /** A host name ends with its top-level name: at least two ASCII letters. */
  lemma HostNameEnding(d: string)
    requires HostName(d)
    ensures |d| >= 2 && IsAsciiLetter(d[|d| - 1]) && IsAsciiLetter(d[|d| - 2])
  {
    var parts := Split(d, ".");
    SplitLastIsSuffix(d, ".");
    var tld := parts[|parts| - 1];
    assert d[|d| - |tld|..] == tld;
    assert d[|d| - 1] == tld[|tld| - 1];
    assert d[|d| - 2] == tld[|tld| - 2];
  }

  /** Every accepted address ends with `]` or with at least two ASCII letters. */
  lemma AcceptedEmailEnding(email: string)
    requires ValidateEmail(email)
    ensures email[|email| - 1] == ']'
            || (|email| >= 2 && IsAsciiLetter(email[|email| - 1]) && IsAsciiLetter(email[|email| - 2]))
  {
    var i :| 0 <= i < |email| && email[i] == '@' && LocalPart(email[..i]) && Domain(email[i + 1..]);
    var d := email[i + 1..];
    if AddressLiteral(d) {
      assert email[|email| - 1] == d[|d| - 1];
    } else {
      HostNameEnding(d);
      assert email[|email| - 1] == d[|d| - 1];
      assert email[|email| - 2] == d[|d| - 2];
    }
  }
}
