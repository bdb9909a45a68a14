/**
 * The string helpers of `AppwriteUtils`: initials of a name and the two
 * regular-expression validators, written as plain predicates over characters.
 */
module AppUtils {
  import opened JsStrings
  import opened Decimal

  // ---------------------------------------------------------------------------
  // getInitials: split(' '), charAt(0) of each piece, join(''), toUpperCase(), substring(0, 2)

  /** `w.charAt(0)`: the first character, or "" for an empty piece. */
  function CharAt0(w: string): (r: string)
    ensures |r| <= 1
    ensures r == [] <==> w == []
    ensures r != [] ==> r[0] == w[0]
  {
    if w == [] then "" else [w[0]]
  }

  /** `pieces.map(w => w.charAt(0)).join('')`. */
  function FirstChars(pieces: seq<string>): (r: string)
    ensures |r| == |NonEmpty(pieces)|
  {
    if pieces == [] then "" else CharAt0(pieces[0]) + FirstChars(pieces[1..])
  }

  /** `s.substring(0, n)` for n >= 0. */
  function Prefix(s: string, n: nat): (r: string)
    ensures |r| == if |s| < n then |s| else n
    ensures r == s[..|r|]
  {
    if |s| < n then s else s[..n]
  }

  /** `getInitials(name)`. */
  function GetInitials(name: string): (r: string)
    ensures |r| <= 2
    ensures forall i :: 0 <= i < |r| ==> !IsAsciiLower(r[i])
    ensures name == "" ==> r == ""
  {
    var upper := ToUpper(FirstChars(Split(name)));
    ToUpperHasNoLower(FirstChars(Split(name)));
    assert name == "" ==> FirstChars(Split(name)) == CharAt0("") + FirstChars([]);
    Prefix(upper, 2)
  }

  /** The non-empty pieces: empty ones come from leading, trailing or repeated spaces. */
  function NonEmpty(pieces: seq<string>): (words: seq<string>)
    ensures forall i :: 0 <= i < |words| ==> words[i] != []
  {
    if pieces == [] then []
    else if pieces[0] == [] then NonEmpty(pieces[1..])
    else [pieces[0]] + NonEmpty(pieces[1..])
  }

  /** The space-separated words of `name`. */
  function Words(name: string): seq<string> {
    NonEmpty(Split(name))
  }

  /** The first characters of the first two words (fewer if there are fewer words). */
  function FirstTwoInitials(words: seq<string>): string
    requires forall i :: 0 <= i < |words| ==> words[i] != []
  {
    if |words| == 0 then ""
    else if |words| == 1 then [words[0][0]]
    else [words[0][0], words[1][0]]
  }

  /** Empty pieces contribute nothing to the joined first characters. */
  lemma {:induction false} FirstCharsSkipsEmpty(pieces: seq<string>)
    ensures FirstChars(pieces) == FirstChars(NonEmpty(pieces))
  {
    if pieces != [] {
      FirstCharsSkipsEmpty(pieces[1..]);
      if pieces[0] != [] {
        assert ([pieces[0]] + NonEmpty(pieces[1..]))[1..] == NonEmpty(pieces[1..]);
      }
    }
  }

  /** Over non-empty words, the joined first characters are one per word, in order. */
  lemma {:induction false} FirstCharsOfWords(words: seq<string>)
    requires forall i :: 0 <= i < |words| ==> words[i] != []
    ensures |FirstChars(words)| == |words|
    ensures forall i :: 0 <= i < |words| ==> FirstChars(words)[i] == words[i][0]
  {
    if words != [] {
      FirstCharsOfWords(words[1..]);
    }
  }

  lemma PrefixOfUpper(s: string, n: nat)
    ensures Prefix(ToUpper(s), n) == ToUpper(Prefix(s, n))
  {
  }

  /**
   * The initials are the upper-cased first characters of the first two
   * words of the name; empty pieces from repeated spaces play no part.
   */
  lemma GetInitialsOfWords(name: string)
    ensures GetInitials(name) == ToUpper(FirstTwoInitials(Words(name)))
  {
    var pieces := Split(name);
    var words := Words(name);
    FirstCharsSkipsEmpty(pieces);
    FirstCharsOfWords(words);
    PrefixOfUpper(FirstChars(words), 2);
    assert Prefix(FirstChars(words), 2) == FirstTwoInitials(words);
  }

  /** Splitting at a space splits the two sides independently. */
  lemma {:induction false} SplitAtSpace(a: string, b: string)
    ensures Split(a + " " + b) == Split(a) + Split(b)
  {
    if a == [] {
      assert a + " " + b == " " + b;
      assert (" " + b)[1..] == b;
    } else {
      assert (a + " " + b)[0] == a[0];
      assert (a + " " + b)[1..] == a[1..] + " " + b;
      SplitAtSpace(a[1..], b);
    }
  }

  lemma {:induction false} NonEmptyAppend(p: seq<string>, q: seq<string>)
    ensures NonEmpty(p + q) == NonEmpty(p) + NonEmpty(q)
  {
    if p == [] {
      assert p + q == q;
    } else {
      assert (p + q)[0] == p[0];
      assert (p + q)[1..] == p[1..] + q;
      NonEmptyAppend(p[1..], q);
    }
  }

  /** A run of spaces counts as one separator: the words around it are the same. */
  lemma DoubledSpaceIsIgnored(a: string, b: string)
    ensures Words(a + "  " + b) == Words(a + " " + b) == Words(a) + Words(b)
    ensures GetInitials(a + "  " + b) == GetInitials(a + " " + b)
  {
    assert a + "  " + b == a + " " + (" " + b);
    SplitAtSpace(a, " " + b);
    SplitAtSpace([], b);
    assert [] + " " + b == " " + b;
    SplitAtSpace(a, b);
    assert Split(" " + b) == [""] + Split(b);
    NonEmptyAppend(Split(a), Split(" " + b));
    NonEmptyAppend([""], Split(b));
    NonEmptyAppend(Split(a), Split(b));
    GetInitialsOfWords(a + "  " + b);
    GetInitialsOfWords(a + " " + b);
  }

  // ---------------------------------------------------------------------------
  // isValidEmail: /^[^\s@]+@[^\s@]+\.[^\s@]+$/

  /** Every character is in the class `[^\s@]`. */
  predicate NoSpaceOrAt(s: string) {
    forall i :: 0 <= i < |s| ==> !IsWhitespace(s[i]) && s[i] != '@'
  }

  /** The index of the first `c` in `s`, or `|s|` when there is none. */
  function IndexOf(s: string, c: char): (i: nat)
    ensures i <= |s|
    ensures i < |s| ==> s[i] == c
    ensures forall k :: 0 <= k < i ==> s[k] != c
  {
    if s == [] then 0
    else if s[0] == c then 0
    else 1 + IndexOf(s[1..], c)
  }

  /** A `.` somewhere other than the first or the last position. */
  predicate HasInnerDot(d: string) {
    |d| >= 3 && '.' in d[1..|d| - 1]
  }

  /** `isValidEmail(email)`: split at the first `@`, then check both sides. */
  predicate IsValidEmail(email: string): (ok: bool)
    ensures ok ==> 5 <= |email|
    ensures ok ==> forall i :: 0 <= i < |email| ==> !IsWhitespace(email[i])
  {
    var at := IndexOf(email, '@');
    && 0 < at < |email|
    && NoSpaceOrAt(email[..at])
    && NoSpaceOrAt(email[at + 1..])
    && HasInnerDot(email[at + 1..])
  }

  /**
   * The regular expression read literally: a non-empty run of `[^\s@]`, an
   * `@`, a non-empty run, a `.`, and a non-empty run, up to the end.
   */
  predicate MatchesEmailPattern(s: string) {
    exists at, dot ::
      && 0 < at && at + 1 < dot && dot + 1 < |s|
      && s[at] == '@' && s[dot] == '.'
      && NoSpaceOrAt(s[..at]) && NoSpaceOrAt(s[at + 1..dot]) && NoSpaceOrAt(s[dot + 1..])
  }

  lemma NoSpaceOrAtSplit(d: string, k: nat)
    requires k < |d| && d[k] == '.'
    ensures NoSpaceOrAt(d) <==> NoSpaceOrAt(d[..k]) && NoSpaceOrAt(d[k + 1..])
  {
  }

  lemma ValidEmailMatchesPattern(s: string)
    requires IsValidEmail(s)
    ensures MatchesEmailPattern(s)
  {
    var at := IndexOf(s, '@');
    var d := s[at + 1..];
    assert '.' in d[1..|d| - 1];
    var j :| 0 <= j < |d| - 2 && d[1..|d| - 1][j] == '.';
    var k := j + 1;
    assert d[k] == '.';
    var dot := at + 1 + k;
    NoSpaceOrAtSplit(d, k);
    assert d[..k] == s[at + 1..dot];
    assert d[k + 1..] == s[dot + 1..];
    assert s[dot] == '.';
  }

  lemma PatternIsValidEmail(s: string, at: nat, dot: nat)
    requires 0 < at && at + 1 < dot && dot + 1 < |s|
    requires s[at] == '@' && s[dot] == '.'
    requires NoSpaceOrAt(s[..at]) && NoSpaceOrAt(s[at + 1..dot]) && NoSpaceOrAt(s[dot + 1..])
    ensures IsValidEmail(s)
  {
    assert IndexOf(s, '@') == at by {
      forall k | 0 <= k < at ensures s[k] != '@' {
        assert s[k] == s[..at][k];
      }
    }
    var d := s[at + 1..];
    var k := dot - at - 1;
    assert d[..k] == s[at + 1..dot] && d[k + 1..] == s[dot + 1..];
    NoSpaceOrAtSplit(d, k);
    assert d[1..|d| - 1][k - 1] == '.';
  }

  /** The validator accepts exactly the strings the regular expression matches. */
  lemma IsValidEmailMatchesPattern(s: string)
    ensures IsValidEmail(s) <==> MatchesEmailPattern(s)
  {
    if IsValidEmail(s) {
      ValidEmailMatchesPattern(s);
    }
    if MatchesEmailPattern(s) {
      var at, dot :|
        && 0 < at && at + 1 < dot && dot + 1 < |s|
        && s[at] == '@' && s[dot] == '.'
        && NoSpaceOrAt(s[..at]) && NoSpaceOrAt(s[at + 1..dot]) && NoSpaceOrAt(s[dot + 1..]);
      PatternIsValidEmail(s, at, dot);
    }
  }

  /** An accepted address has exactly one `@`, with text on both sides. */
  lemma ValidEmailHasOneAt(s: string)
    requires IsValidEmail(s)
    ensures exists at :: 0 < at < |s| - 1 && s[at] == '@'
    ensures forall i, j :: 0 <= i < j < |s| && s[i] == '@' ==> s[j] != '@'
  {
    var at := IndexOf(s, '@');
    var d := s[at + 1..];
    assert s[at] == '@';
    forall i, j | 0 <= i < j < |s| && s[i] == '@' ensures s[j] != '@' {
      assert i == at;
      assert s[j] == d[j - at - 1];
    }
  }

  // ---------------------------------------------------------------------------
  // isValidPhone: /^\+?[1-9]\d{1,14}$/ after phone.replace(/[\s\-\(\)]/g, '')

  /** The class `[\s\-\(\)]` of characters the phone check removes. */
  predicate IsSeparator(c: char) {
    IsWhitespace(c) || c == '-' || c == '(' || c == ')'
  }

  /** `phone.replace(/[\s\-\(\)]/g, '')`: keeps every other character, in order. */
  function StripSeparators(s: string): (r: string)
    ensures |r| <= |s|
    ensures forall i :: 0 <= i < |r| ==> !IsSeparator(r[i])
  {
    if s == [] then ""
    else if IsSeparator(s[0]) then StripSeparators(s[1..])
    else [s[0]] + StripSeparators(s[1..])
  }

  /** A string without separators is left as it is. */
  lemma {:induction false} StripWithoutSeparators(s: string)
    requires forall i :: 0 <= i < |s| ==> !IsSeparator(s[i])
    ensures StripSeparators(s) == s
  {
    if s != [] {
      StripWithoutSeparators(s[1..]);
    }
  }

  /** Stripping twice is stripping once. */
  lemma {:induction false} StripIdempotent(s: string)
    ensures StripSeparators(StripSeparators(s)) == StripSeparators(s)
  {
    StripWithoutSeparators(StripSeparators(s));
  }

  /** Stripping works piecewise. */
  lemma {:induction false} StripAppend(a: string, b: string)
    ensures StripSeparators(a + b) == StripSeparators(a) + StripSeparators(b)
  {
    if a == [] {
      assert a + b == b;
    } else {
      assert (a + b)[0] == a[0];
      assert (a + b)[1..] == a[1..] + b;
      StripAppend(a[1..], b);
    }
  }

  /** `^\+?[1-9]\d{1,14}$` on the stripped string. */
  predicate MatchesPhonePattern(t: string) {
    var digits := if |t| > 0 && t[0] == '+' then t[1..] else t;
    && 2 <= |digits| <= 15
    && '1' <= digits[0] <= '9'
    && AllDigits(digits[1..])
  }

  /** `isValidPhone(phone)`. */
  predicate IsValidPhone(phone: string): (ok: bool)
    ensures ok ==> 2 <= CountDigits(phone) <= 15
  {
    StripKeepsDigits(phone);
    PatternDigitCount(StripSeparators(phone));
    MatchesPhonePattern(StripSeparators(phone))
  }

  /** A string the pattern accepts holds 2 to 15 digits. */
  lemma PatternDigitCount(t: string)
    ensures MatchesPhonePattern(t) ==> 2 <= CountDigits(t) <= 15
  {
    if MatchesPhonePattern(t) {
      var digits := if t[0] == '+' then t[1..] else t;
      assert AllDigits(digits) by {
        forall i | 0 <= i < |digits| ensures IsDigit(digits[i]) {
          if i > 0 { assert digits[i] == digits[1..][i - 1]; }
        }
      }
      CountDigitsOfDigits(digits);
    }
  }

  /** Inserting a separator anywhere does not change the verdict. */
  lemma SeparatorIsIgnored(a: string, c: char, b: string)
    requires IsSeparator(c)
    ensures IsValidPhone(a + [c] + b) == IsValidPhone(a + b)
  {
    StripAppend(a + [c], b);
    StripAppend(a, [c]);
    StripAppend(a, b);
    assert StripSeparators([c]) == "";
    assert StripSeparators(a) + "" == StripSeparators(a);
  }

  /** The number of ASCII digits in `s`. */
  function CountDigits(s: string): (n: nat)
    ensures n <= |s|
  {
    if s == [] then 0 else (if IsDigit(s[0]) then 1 else 0) + CountDigits(s[1..])
  }

  lemma {:induction false} CountDigitsOfDigits(s: string)
    requires AllDigits(s)
    ensures CountDigits(s) == |s|
  {
    if s != [] {
      CountDigitsOfDigits(s[1..]);
    }
  }

  /** Stripping removes no digit. */
  lemma {:induction false} StripKeepsDigits(s: string)
    ensures CountDigits(StripSeparators(s)) == CountDigits(s)
  {
    if s != [] {
      StripKeepsDigits(s[1..]);
      if !IsSeparator(s[0]) {
        assert ([s[0]] + StripSeparators(s[1..]))[1..] == StripSeparators(s[1..]);
      }
    }
  }

  /**
   * The digit-count reading of the phone check: once separators are gone the
   * phone is digits with at most a leading `+`, the first digit is not 0, and
   * there are 2 to 15 digits in all, counted in the original string too.
   */
  lemma IsValidPhoneByDigitCount(phone: string)
    ensures var t := StripSeparators(phone);
      var digits := if |t| > 0 && t[0] == '+' then t[1..] else t;
      IsValidPhone(phone) <==>
        && AllDigits(digits)
        && 2 <= CountDigits(phone) <= 15
        && digits != [] && digits[0] != '0'
  {
    var t := StripSeparators(phone);
    var digits := if |t| > 0 && t[0] == '+' then t[1..] else t;
    StripKeepsDigits(phone);
    assert t == digits || t == [t[0]] + digits;
    if AllDigits(digits) {
      CountDigitsOfDigits(digits);
      assert CountDigits(t) == |digits|;
      if digits != [] {
        assert digits == [digits[0]] + digits[1..];
        assert AllDigits(digits[1..]) by {
          forall i | 0 <= i < |digits[1..]| ensures IsDigit(digits[1..][i]) {
            assert digits[1..][i] == digits[i + 1];
          }
        }
      }
    }
    if IsValidPhone(phone) {
      assert AllDigits(digits) by {
        forall i | 0 <= i < |digits| ensures IsDigit(digits[i]) {
          if i > 0 { assert digits[i] == digits[1..][i - 1]; }
        }
      }
    }
  }
}
