/** The e-mail rules shared by the account routes: the format test
    `/^[^\s@]+@[^\s@]+\.[^\s@]+$/`, normalization (trim, then lower-case) and
    the one reserved administrator address. */
module Emails {
  import opened JsText

  const RESERVED_ADMIN_EMAIL := "admin@gmail.com"

  /** A character of the class `[^\s@]`. */
  predicate IsAddressChar(c: char) {
    c != '@' && !IsWhitespace(c)
  }

  /** A non-empty run of `[^\s@]`: the `[^\s@]+` of the pattern. */
  predicate IsAddressRun(s: string) {
    s != [] && forall k :: 0 <= k < |s| ==> IsAddressChar(s[k])
  }

  /** `s` matches the pattern with its `@` at `i` and the chosen `.` at `j`:
      a run, `@`, a run, `.`, a run. */
  predicate EmailSplitAt(s: string, i: int, j: int) {
    && 0 <= i < j < |s|
    && s[i] == '@'
    && s[j] == '.'
    && IsAddressRun(s[..i])
    && IsAddressRun(s[i + 1..j])
    && IsAddressRun(s[j + 1..])
  }

  /** The pattern test computed directly: no whitespace, exactly one `@` with
      something before it, and a `.` in the domain that is neither its first
      nor its last character. */
  predicate IsValidEmail(s: string) {
    && !HasWhitespace(s)
    && '@' in s
    && var i := FirstIndex(s, '@');
    && 0 < i
    && i + 3 <= |s|
    && '@' !in s[i + 1..]
    && '.' in s[i + 2..|s| - 1]
  }

  /** A string the direct test accepts splits as the pattern requires. */
  lemma ValidEmailSplits(s: string)
    requires IsValidEmail(s)
    ensures exists i, j :: EmailSplitAt(s, i, j)
  {
    var i := FirstIndex(s, '@');
    var d := s[i + 2..|s| - 1];
    var m := FirstIndex(d, '.');
    var j := i + 2 + m;
    assert s[j] == '.';
    assert forall k :: i + 1 <= k < |s| ==> s[k] != '@' by {
      forall k | i + 1 <= k < |s| ensures s[k] != '@' {
        assert s[i + 1..][k - i - 1] == s[k];
      }
    }
    assert EmailSplitAt(s, i, j);
  }

  /** Outside its `@`, a string that splits holds only address characters. */
  lemma SplitAddressChars(s: string, i: int, j: int)
    requires EmailSplitAt(s, i, j)
    ensures forall k :: 0 <= k < |s| && k != i ==> IsAddressChar(s[k])
  {
    forall k | 0 <= k < |s| && k != i ensures IsAddressChar(s[k]) {
      if k < i {
        assert s[..i][k] == s[k];
      } else if i < k < j {
        assert s[i + 1..j][k - i - 1] == s[k];
      } else if k == j {
      } else {
        assert s[j + 1..][k - j - 1] == s[k];
      }
    }
  }

  /** A string that splits as the pattern requires passes the direct test. */
  lemma SplitIsValid(s: string, i: int, j: int)
    requires EmailSplitAt(s, i, j)
    ensures IsValidEmail(s)
  {
    SplitAddressChars(s, i, j);
    assert FirstIndex(s, '@') == i by {
      assert '@' !in s[..i];
    }
    assert s[i + 2..|s| - 1][j - i - 2] == '.';
    var tail := s[i + 1..];
    assert '@' !in tail by {
      forall k | 0 <= k < |tail| ensures tail[k] != '@' {
        assert tail[k] == s[k + i + 1];
      }
    }
    assert !HasWhitespace(s) by {
      forall k | 0 <= k < |s| ensures !IsWhitespace(s[k]) {
        if k != i {
          assert IsAddressChar(s[k]);
        }
      }
    }
  }

  /** The direct test accepts exactly the strings the pattern matches. */
  lemma IsValidEmailIff(s: string)
    ensures IsValidEmail(s) <==> exists i, j :: EmailSplitAt(s, i, j)
  {
    if IsValidEmail(s) {
      ValidEmailSplits(s);
    }
    if exists i, j :: EmailSplitAt(s, i, j) {
      var i, j :| EmailSplitAt(s, i, j);
      SplitIsValid(s, i, j);
    }
  }

  /** `normalizeEmail`: `(email || "").trim().toLowerCase()`. */
  function NormalizeEmail(email: string): (r: string)
    ensures IsTrimmed(r)
    ensures forall k :: 0 <= k < |r| ==> !IsAsciiUpper(r[k])
    ensures |r| <= |email|
  {
    var t := Trim(email);
    TrimToLowerCommute(t);
    TrimOfTrimmed(t);
    ToLower(t)
  }

  /** The shape of a normalized address: trimmed, with no upper-case letter. */
  predicate IsNormalized(e: string) {
    IsTrimmed(e) && forall k :: 0 <= k < |e| ==> !IsAsciiUpper(e[k])
  }

  /** Normalization leaves exactly the normalized-shaped addresses alone. */
  lemma NormalizedIff(e: string)
    ensures NormalizeEmail(e) == e <==> IsNormalized(e)
  {
    if IsNormalized(e) {
      TrimOfTrimmed(e);
      var l := ToLower(e);
      assert forall k :: 0 <= k < |e| ==> l[k] == e[k];
    }
  }

  /** Normalizing twice is normalizing once. */
  lemma NormalizeEmailIdempotent(email: string)
    ensures NormalizeEmail(NormalizeEmail(email)) == NormalizeEmail(email)
  {
    var t := Trim(email);
    TrimToLowerCommute(t);
    TrimOfTrimmed(t);
    TrimOfTrimmed(ToLower(t));
    ToLowerIdempotent(t);
  }

  /** A valid address has no whitespace to trim: normalizing it only
      lower-cases it. */
  lemma ValidEmailNormalizesByLowering(email: string)
    requires IsValidEmail(email)
    ensures NormalizeEmail(email) == ToLower(email)
  {
    NoWhitespaceTrimmed(email);
  }

  /** A valid address normalizes to a non-empty one. */
  lemma NormalizeEmailNonEmpty(email: string)
    requires IsValidEmail(email)
    ensures NormalizeEmail(email) != []
  {
    NoWhitespaceTrimmed(email);
  }

  /** `isProtectedAdminEmail`. */
  predicate IsProtectedAdminEmail(email: string) {
    NormalizeEmail(email) == RESERVED_ADMIN_EMAIL
  }

  /** Protection looks through case and surrounding whitespace. */
  lemma ProtectionIgnoresNormalization(email: string)
    ensures IsProtectedAdminEmail(NormalizeEmail(email)) <==> IsProtectedAdminEmail(email)
  {
    NormalizeEmailIdempotent(email);
  }

  /** An address of lower-case letters, `@` and `.` only is its own
      normal form: trimming leaves it (here) and so does lower-casing
      (`PlainAddressLowered`). */
  lemma PlainAddressTrimmed(e: string)
    requires forall k :: 0 <= k < |e| ==> IsPlainChar(e[k])
    ensures Trim(e) == e
  {
    forall k | 0 <= k < |e| ensures !IsWhitespace(e[k]) {
      PlainCharIsPlain(e[k]);
    }
    assert !HasWhitespace(e);
    NoWhitespaceTrimmed(e);
  }

  lemma PlainAddressLowered(e: string)
    requires forall k :: 0 <= k < |e| ==> IsPlainChar(e[k])
    ensures ToLower(e) == e
  {
    var l := ToLower(e);
    forall k | 0 <= k < |e| ensures l[k] == e[k] {
      PlainCharIsPlain(e[k]);
    }
  }

  /** A lower-case ASCII letter, `@` or `.`. */
  predicate IsPlainChar(c: char) {
    'a' <= c <= 'z' || c == '@' || c == '.'
  }

  lemma PlainCharIsPlain(c: char)
    requires IsPlainChar(c)
    ensures !IsWhitespace(c) && !IsAsciiUpper(c)
  {
    assert 0x2E <= c as int <= 0x7A;
  }

  /** Three non-empty runs of lower-case letters joined by `@` and `.`
      make a valid address. */
  lemma LetterAddressValid(local: string, domain: string, top: string)
    requires local != [] && domain != [] && top != []
    requires forall k :: 0 <= k < |local| ==> 'a' <= local[k] <= 'z'
    requires forall k :: 0 <= k < |domain| ==> 'a' <= domain[k] <= 'z'
    requires forall k :: 0 <= k < |top| ==> 'a' <= top[k] <= 'z'
    ensures IsValidEmail(local + "@" + domain + "." + top)
  {
    var s := local + "@" + domain + "." + top;
    var i, j := |local|, |local| + 1 + |domain|;
    assert s[..i] == local;
    assert s[i + 1..j] == domain;
    assert s[j + 1..] == top;
    assert EmailSplitAt(s, i, j);
    IsValidEmailIff(s);
  }

  /** The reserved address, as written, is protected. */
  lemma ReservedAddressIsProtected()
    ensures IsProtectedAdminEmail(RESERVED_ADMIN_EMAIL)
    ensures ToLower(RESERVED_ADMIN_EMAIL) == RESERVED_ADMIN_EMAIL
  {
    PlainAddressTrimmed(RESERVED_ADMIN_EMAIL);
    PlainAddressLowered(RESERVED_ADMIN_EMAIL);
  }

  /** Lower-casing keeps an address valid: it moves neither the `@` nor the
      `.`, and turns no character into whitespace or `@`. */
  lemma ValidEmailLowered(s: string)
    requires IsValidEmail(s)
    ensures IsValidEmail(ToLower(s))
  {
    ValidEmailSplits(s);
    var i, j :| EmailSplitAt(s, i, j);
    SplitAddressChars(s, i, j);
    var l := ToLower(s);
    forall k | 0 <= k < |s| && k != i
      ensures IsAddressChar(l[k])
    {
      if IsAsciiUpper(s[k]) {
        assert l[k] == LowerChar(s[k]);
      }
    }
    AddressRunSlice(l, 0, i);
    AddressRunSlice(l, i + 1, j);
    AddressRunSlice(l, j + 1, |l|);
    assert EmailSplitAt(l, i, j);
    SplitIsValid(l, i, j);
  }

  /** A non-empty stretch of address characters is a run. */
  lemma AddressRunSlice(s: string, a: int, b: int)
    requires 0 <= a < b <= |s|
    requires forall k :: a <= k < b ==> IsAddressChar(s[k])
    ensures IsAddressRun(s[a..b])
  {
    var r := s[a..b];
    forall k | 0 <= k < |r| ensures IsAddressChar(r[k]) {
      assert r[k] == s[a + k];
    }
  }
}
