/**
 * The field check of `register_user`: the C string of one token read for the
 * username or the password is scanned character by character with `isalnum`,
 * then its length is compared with a fixed bound. Both fields run the same code, so one
 * predicate describes both.
 */
module Validation {

  /**
   * The C string held in a buffer that `scanf("%s", ...)` filled: the
   * characters before the first NUL. `%s` stops only at white space, so a
   * token may hold a NUL; `strlen`, the scan loop and `printf("%s")` all stop there.
   */
  function CStr(t: seq<char>): (r: seq<char>)
    ensures |r| <= |t| && r == t[..|r|]
    ensures '\0' !in r
    ensures |r| < |t| ==> t[|r|] == '\0'
  {
    if t == [] || t[0] == '\0' then [] else [t[0]] + CStr(t[1..])
  }

  /** A token without a NUL is its own C string. */
  lemma CStrOfNulFree(t: seq<char>)
    requires '\0' !in t
    ensures CStr(t) == t
  {
  }

  /** `isalnum` in the "C" locale: an ASCII letter or digit. */
  predicate IsAlnum(c: char)
  {
    'A' <= c <= 'Z' || 'a' <= c <= 'z' || '0' <= c <= '9'
  }

  /** The bound of `strlen(...) < 10`, the same for the username and the password. */
  const LengthBound: nat := 10

  /** Every character of `s` is alphanumeric. */
  predicate AllAlnum(s: seq<char>)
  {
    forall i | 0 <= i < |s| :: IsAlnum(s[i])
  }

  /** A C string the check accepts, as username or as password. */
  predicate ValidField(s: seq<char>)
  {
    |s| < LengthBound && AllAlnum(s)
  }

  /**
   * The value of the `is_alnum` flag after the scan loop has examined the
   * first `i` characters of `s`: it starts at 1 and is cleared by every
   * non-alphanumeric character.
   */
  function ScanFlag(s: seq<char>, i: nat): (flag: bool)
    requires i <= |s|
    ensures !flag ==> exists j | 0 <= j < i :: !IsAlnum(s[j])
  {
    if i == 0 then true
    else if !IsAlnum(s[i - 1]) then false
    else ScanFlag(s, i - 1)
  }

  /** After examining positions [0, i) the flag is set iff all of them are alphanumeric. */
  lemma {:induction false} ScanFlagMeaning(s: seq<char>, i: nat)
    requires i <= |s|
    ensures ScanFlag(s, i) <==> forall j | 0 <= j < i :: IsAlnum(s[j])
  {
    if i > 0 {
      ScanFlagMeaning(s, i - 1);
    }
  }

  /** Once the flag has been cleared, no later iteration of the scan sets it back. */
  lemma {:induction false} ScanFlagNeverReset(s: seq<char>, i: nat, k: nat)
    requires i <= k <= |s|
    requires !ScanFlag(s, i)
    ensures !ScanFlag(s, k)
  {
    if i < k {
      ScanFlagNeverReset(s, i, k - 1);
    }
  }

  /** The scan loop: it sets the flag, then clears it at each non-alphanumeric character of `s`. */
  method ScanAlnum(s: seq<char>) returns (isAlnum: bool)
    ensures isAlnum <==> AllAlnum(s)
  {
    isAlnum := true;
    for i := 0 to |s|
      invariant isAlnum == ScanFlag(s, i)
    {
      if !IsAlnum(s[i]) {
        isAlnum := false;
      }
    }
    ScanFlagMeaning(s, |s|);
  }

  /**
   * One pass of the body of a retry loop: scan the C string in the token's
   * buffer, then set the validity flag when that string is shorter than the
   * bound and alphanumeric. Whatever follows an embedded NUL is never looked at.
   */
  method CheckToken(token: seq<char>) returns (isValid: bool)
    ensures isValid <==> ValidField(CStr(token))
  {
    isValid := false;
    var str := CStr(token);
    var isAlnum := ScanAlnum(str);
    if |str| < LengthBound && isAlnum {
      isValid := true;
    }
  }

  /** A character that is not alphanumeric rejects the C string, wherever it sits. */
  lemma NonAlnumRejected(s: seq<char>, k: nat)
    requires k < |s| && !IsAlnum(s[k])
    ensures !ValidField(s)
  {
  }

  /**
   * A C string holding a character outside ASCII is rejected, so counting
   * characters where `strlen` counts bytes never changes acceptance.
   */
  lemma NonAsciiRejected(s: seq<char>, k: nat)
    requires k < |s| && s[k] as int >= 128
    ensures !ValidField(s)
  {
  }

  /** A C string of ten or more characters is rejected even when it is all alphanumeric. */
  lemma TooLongRejected(s: seq<char>)
    requires |s| >= LengthBound
    ensures !ValidField(s)
  {
  }

  /** An accepted C string has at most nine characters. */
  lemma AcceptedAtMostNine(s: seq<char>)
    requires ValidField(s)
    ensures |s| <= 9
  {
  }

  /** Acceptance of C strings is prefix-closed. */
  lemma PrefixClosed(s: seq<char>, k: nat)
    requires ValidField(s) && k <= |s|
    ensures ValidField(s[..k])
  {
  }

  /**
   * The username prompt announces "max. 10 characters", yet a ten-character
   * alphanumeric username is rejected.
   */
  lemma TenCharacterUsernameRejected()
    ensures AllAlnum("abcdefghij") && !ValidField("abcdefghij")
  {
  }

  /**
   * The password comment says "shorter than 9 characters" and the prompt
   * "max. 8 characters", yet a nine-character password is accepted.
   */
  lemma NineCharacterPasswordAccepted()
    ensures |"abcdefghi"| == 9 && ValidField("abcdefghi")
  {
  }
}
