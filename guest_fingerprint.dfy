/**
 * Guest identities: the format check `GuestFingerprint::validate`, the form
 * validation rule wrapping it, and the value `generate` produces (a SHA-256
 * digest in hexadecimal), taken here as given rather than computed.
 */
module GuestFingerprint {
  import opened Wrappers
  import PhpValues

  const HexDigits: string := "0123456789abcdefABCDEF"

  /** `ctype_xdigit` on one character. */
  predicate IsHexDigit(c: char)
  {
    ('0' <= c <= '9') || ('a' <= c <= 'f') || ('A' <= c <= 'F')
  }

  lemma HexDigitTable(c: char)
    ensures IsHexDigit(c) <==> c in HexDigits
  {
    if IsHexDigit(c) {
      if '0' <= c <= '9' {
        assert HexDigits[c as int - '0' as int] == c;
      } else if 'a' <= c <= 'f' {
        assert HexDigits[10 + c as int - 'a' as int] == c;
      } else {
        assert HexDigits[16 + c as int - 'A' as int] == c;
      }
    }
  }

  /** `GuestFingerprint::validate`: exactly 64 characters, all hexadecimal digits of either case. */
  function Validate(s: string): (ok: bool)
    ensures ok <==> |s| == 64 && forall c :: c in s ==> c in HexDigits
  {
    var ok := |s| == 64 && forall i :: 0 <= i < |s| ==> IsHexDigit(s[i]);
    assert ok <==> |s| == 64 && forall c :: c in s ==> c in HexDigits by {
      forall c | c in s ensures IsHexDigit(c) <==> c in HexDigits {
        HexDigitTable(c);
      }
    }
    ok
  }

  /** What `generate` returns: `hash('sha256', …)`, 64 lower-case hexadecimal digits. */
  type Sha256Hex = s: string | |s| == 64 && forall i :: 0 <= i < |s| ==> ('0' <= s[i] <= '9') || ('a' <= s[i] <= 'f')
    witness seq(64, i => '0')

  /** A generated fingerprint always passes `validate`. */
  lemma GeneratedIsValid(d: Sha256Hex)
    ensures Validate(d)
  {
    forall c | c in d ensures c in HexDigits {
      var i :| 0 <= i < |d| && d[i] == c;
      HexDigitTable(c);
    }
  }

  /** Upper-casing a character, as `strtoupper` does on ASCII letters. */
  function Upper(c: char): char
  {
    if 'a' <= c <= 'z' then (c as int - 32) as char else c
  }

  /** `validate` does not depend on letter case: lower- and upper-case digests are both accepted. */
  lemma {:induction false} ValidateIgnoresCase(s: string)
    ensures Validate(s) == Validate(seq(|s|, i requires 0 <= i < |s| => Upper(s[i])))
  {
    var u := seq(|s|, i requires 0 <= i < |s| => Upper(s[i]));
    forall i | 0 <= i < |s| ensures IsHexDigit(s[i]) == IsHexDigit(u[i]) { }
    forall c | c in s ensures IsHexDigit(c) <==> c in HexDigits { HexDigitTable(c); }
    forall c | c in u ensures IsHexDigit(c) <==> c in HexDigits { HexDigitTable(c); }
  }

  /** A string of 64 characters holding some non-hexadecimal character is rejected. */
  lemma RejectsNonHex(s: string, i: nat)
    requires |s| == 64 && i < |s| && !IsHexDigit(s[i])
    ensures !Validate(s)
  {
    HexDigitTable(s[i]);
  }

  const RuleMessage: string := "The :attribute must be a valid guest fingerprint."

  /**
   * `GuestFingerPrintRule::validate`: the messages passed to `$fail`. An
   * `empty()` value is skipped; anything else that fails the format check
   * fails once.
   */
  function RuleFailures(value: Option<string>): (fails: seq<string>)
    ensures |fails| <= 1
    ensures fails == [] <==> !PhpValues.Truthy(value) || Validate(value.value)
    ensures fails != [] ==> fails[0] == RuleMessage
  {
    if !PhpValues.Truthy(value) then []
    else if !Validate(value.value) then [RuleMessage]
    else []
  }

  /** `empty("0")` holds in PHP, so the rule accepts "0" though it is no fingerprint. */
  lemma RuleAcceptsZeroString()
    ensures RuleFailures(Some("0")) == [] && !Validate("0")
  {
  }
}
