/**
 * The action's input validation (`getInputs` in src/utils.ts), as pure
 * functions over the raw input strings. A missing input is the empty string,
 * which is what the input library hands back for it.
 */
module Inputs {
  import opened Wrappers
  import opened Decimal

  /**
   * JavaScript's white space and line terminators, the characters that
   * `String.prototype.trim` and `parseInt` skip.
   */
  predicate IsJsWhitespace(c: char) {
    || c == '\t' || c == '\n' || c == '\U{000B}' || c == '\U{000C}' || c == '\r'
    || c == ' ' || c == '\U{00A0}' || c == '\U{1680}'
    || ('\U{2000}' <= c <= '\U{200A}')
    || c == '\U{2028}' || c == '\U{2029}' || c == '\U{202F}' || c == '\U{205F}'
    || c == '\U{3000}' || c == '\U{FEFF}'
  }

  /** `s.trim() === ""`: the string holds nothing but white space, so trimming leaves nothing. */
  predicate IsBlank(s: string)
    ensures IsBlank(s) <==> TrimStart(s) == []
  {
    var t := TrimStart(s);
    assert t != [] ==> t[0] == s[|s| - |t|];
    forall i :: 0 <= i < |s| ==> IsJsWhitespace(s[i])
  }

  /** `s` with its leading white space removed. */
  function TrimStart(s: string): (t: string)
    ensures |t| <= |s| && t == s[|s| - |t|..]
    ensures forall i :: 0 <= i < |s| - |t| ==> IsJsWhitespace(s[i])
    ensures t == [] || !IsJsWhitespace(t[0])
  {
    if s != [] && IsJsWhitespace(s[0]) then
      var t := TrimStart(s[1..]);
      assert forall i :: 1 <= i < |s| - |t| ==> s[i] == s[1..][i - 1];
      t
    else s
  }

  /** The value of `c` as a digit in `radix` (10 or 16), if it is one. */
  function RadixDigit(c: char, radix: nat): (d: Option<nat>)
    ensures d.Some? ==> d.value < radix
  {
    if '0' <= c <= '9' && (c as int - '0' as int) < radix then Some(c as int - '0' as int)
    else if 'a' <= c <= 'z' && 10 + (c as int - 'a' as int) < radix then Some(10 + (c as int - 'a' as int))
    else if 'A' <= c <= 'Z' && 10 + (c as int - 'A' as int) < radix then Some(10 + (c as int - 'A' as int))
    else None
  }

  predicate AllRadixDigits(s: string, radix: nat) {
    forall i :: 0 <= i < |s| ==> RadixDigit(s[i], radix).Some?
  }

  /** The longest prefix of `s` made of digits in `radix`. */
  function DigitPrefix(s: string, radix: nat): (p: string)
    ensures |p| <= |s| && p == s[..|p|]
    ensures AllRadixDigits(p, radix)
    ensures |p| == |s| || RadixDigit(s[|p|], radix).None?
  {
    if s != [] && RadixDigit(s[0], radix).Some? then
      var p := DigitPrefix(s[1..], radix);
      assert [s[0]] + p == s[..|p| + 1];
      [s[0]] + p
    else []
  }

  function RadixValue(s: string, radix: nat): nat
    requires AllRadixDigits(s, radix)
  {
    if s == [] then 0
    else
      var p := s[..|s| - 1];
      assert AllRadixDigits(p, radix) by {
        forall i | 0 <= i < |p| ensures RadixDigit(p[i], radix).Some? { assert p[i] == s[i]; }
      }
      var high: int := RadixValue(p, radix);
      assert high * radix >= 0;
      high * radix + RadixDigit(s[|s| - 1], radix).value
  }

  /**
   * `parseInt(s)` with no radix, on exact integers: skip leading white
   * space, take one optional sign, read a `0x`/`0X` prefix as radix 16, then
   * the longest run of digits; no digits gives `NaN` (here `None`).
   * `parseInt("-0")` is `-0`, which compares and prints like `0`.
   */
  function ParseInt(s: string): (r: Option<int>)
    ensures IsBlank(s) ==> r == None
    ensures r.Some? && r.value < 0 ==> TrimStart(s)[0] == '-'
  {
    var t := TrimStart(s);
    var negative := |t| > 0 && t[0] == '-';
    var u := if |t| > 0 && (t[0] == '-' || t[0] == '+') then t[1..] else t;
    var hex := |u| >= 2 && u[0] == '0' && (u[1] == 'x' || u[1] == 'X');
    var radix := if hex then 16 else 10;
    var digits := DigitPrefix(if hex then u[2..] else u, radix);
    var magnitude: int := if digits == [] then 0 else RadixValue(digits, radix);
    if digits == [] then None
    else if negative then Some(-magnitude)
    else Some(magnitude)
  }

  function NotNonNegative(field: string): string {
    field + " must be a non-negative integer."
  }

  /**
   * One count input: blank means 0; otherwise `parseInt` must give a number
   * that is not negative and whose `toString()` is the raw text itself.
   */
  function ParseCount(raw: string, field: string): (r: Result<int, string>)
    ensures r.Success? ==> r.value >= 0
    ensures r.Failure? ==> r.error == NotNonNegative(field)
  {
    if !IsBlank(raw) then
      match ParseInt(raw)
      case None => Failure(NotNonNegative(field))
      case Some(v) =>
        if v < 0 || raw != NatToString(v) then Failure(NotNonNegative(field))
        else Success(v)
    else Success(0)
  }

  /** A boolean input: `=== "true"`. */
  function ParseFlag(raw: string): bool {
    raw == "true"
  }

  /** The raw strings the input library returns, one per input. */
  datatype RawInputs = RawInputs(
    githubToken: string,
    releasePattern: string,
    releasesToKeep: string,
    excludePattern: string,
    daysToKeep: string,
    dryRun: string,
    deleteDraftReleasesOnly: string,
    deletePrereleasesOnly: string,
    targetBranchPattern: string)

  datatype ActionInputs = ActionInputs(
    githubToken: string,
    releasePattern: string,
    releasesToKeep: int,
    excludePattern: string,
    daysToKeep: int,
    dryRun: bool,
    deleteDraftReleasesOnly: bool,
    deletePrereleasesOnly: bool,
    targetBranchPattern: string)

  /** `getInputs`: `RELEASES_TO_KEEP` is validated first, then `DAYS_TO_KEEP`. */
  function GetInputs(raw: RawInputs): (r: Result<ActionInputs, string>)
    ensures ParseCount(raw.releasesToKeep, "RELEASES_TO_KEEP").Failure? ==>
      r == Failure(NotNonNegative("RELEASES_TO_KEEP"))
    ensures ParseCount(raw.releasesToKeep, "RELEASES_TO_KEEP").Success? &&
            ParseCount(raw.daysToKeep, "DAYS_TO_KEEP").Failure? ==>
      r == Failure(NotNonNegative("DAYS_TO_KEEP"))
    ensures ParseCount(raw.releasesToKeep, "RELEASES_TO_KEEP").Success? &&
            ParseCount(raw.daysToKeep, "DAYS_TO_KEEP").Success? ==>
      r.Success?
    ensures r.Success? ==>
      && r.value.releasesToKeep >= 0 && r.value.daysToKeep >= 0
      && Success(r.value.releasesToKeep) == ParseCount(raw.releasesToKeep, "RELEASES_TO_KEEP")
      && Success(r.value.daysToKeep) == ParseCount(raw.daysToKeep, "DAYS_TO_KEEP")
      && (r.value.dryRun <==> raw.dryRun == "true")
      && (r.value.deleteDraftReleasesOnly <==> raw.deleteDraftReleasesOnly == "true")
      && (r.value.deletePrereleasesOnly <==> raw.deletePrereleasesOnly == "true")
      && r.value.githubToken == raw.githubToken
      && r.value.releasePattern == raw.releasePattern
      && r.value.excludePattern == raw.excludePattern
      && r.value.targetBranchPattern == raw.targetBranchPattern
  {
    match ParseCount(raw.releasesToKeep, "RELEASES_TO_KEEP")
    case Failure(e) => Failure(e)
    case Success(keep) =>
      match ParseCount(raw.daysToKeep, "DAYS_TO_KEEP")
      case Failure(e) => Failure(e)
      case Success(days) =>
        Success(ActionInputs(
          githubToken := raw.githubToken,
          releasePattern := raw.releasePattern,
          releasesToKeep := keep,
          excludePattern := raw.excludePattern,
          daysToKeep := days,
          dryRun := ParseFlag(raw.dryRun),
          deleteDraftReleasesOnly := ParseFlag(raw.deleteDraftReleasesOnly),
          deletePrereleasesOnly := ParseFlag(raw.deletePrereleasesOnly),
          targetBranchPattern := raw.targetBranchPattern))
  }

  // ---------------------------------------------------------------------
  // Properties of the count validator

  /** The digits of a canonical decimal string are radix-10 digits with the same value. */
  lemma {:induction false} DecimalIsRadixTen(s: string)
    requires AllDigits(s)
    ensures AllRadixDigits(s, 10)
    ensures RadixValue(s, 10) == DecimalValue(s)
    decreases |s|
  {
    if s != [] {
      var p := s[..|s| - 1];
      assert AllDigits(p) by {
        forall i | 0 <= i < |p| ensures IsDigit(p[i]) { assert p[i] == s[i]; }
      }
      DecimalIsRadixTen(p);
    }
  }

  /** `parseInt` reads a canonical decimal string as its value. */
  lemma ParseIntCanonical(s: string)
    requires IsCanonicalDecimal(s)
    ensures ParseInt(s) == Some(DecimalValue(s))
  {
    assert !IsJsWhitespace(s[0]);
    assert TrimStart(s) == s;
    DecimalIsRadixTen(s);
    assert DigitPrefix(s, 10) == s by { DigitPrefixOfDigits(s, 10); }
  }

  lemma {:induction false} DigitPrefixOfDigits(s: string, radix: nat)
    requires AllRadixDigits(s, radix)
    ensures DigitPrefix(s, radix) == s
    decreases |s|
  {
    if s != [] {
      assert AllRadixDigits(s[1..], radix) by {
        forall i | 0 <= i < |s[1..]| ensures RadixDigit(s[1..][i], radix).Some? { assert s[1..][i] == s[i + 1]; }
      }
      DigitPrefixOfDigits(s[1..], radix);
    }
  }

  /**
   * The validator in closed form: a blank input is 0; any other input is
   * accepted exactly when it is the canonical decimal form of a natural
   * number (no sign, no leading zero, no white space, nothing after the
   * digits), and then its value is that number.
   */
  lemma ParseCountCharacterized(raw: string, field: string)
    ensures ParseCount(raw, field) ==
      if IsBlank(raw) then Success(0)
      else if IsCanonicalDecimal(raw) then Success(DecimalValue(raw))
      else Failure(NotNonNegative(field))
  {
    if !IsBlank(raw) {
      if IsCanonicalDecimal(raw) {
        ParseIntCanonical(raw);
        CanonicalRoundTrip(raw);
      }
    }
  }

  /** A value that does not start with white space and holds a character other than a digit is rejected. */
  lemma NonDigitRejected(raw: string, field: string, k: nat)
    requires k < |raw| && !IsJsWhitespace(raw[0]) && !IsDigit(raw[k])
    ensures ParseCount(raw, field) == Failure(NotNonNegative(field))
  {
    assert !IsBlank(raw);
    assert !AllDigits(raw);
    ParseCountCharacterized(raw, field);
  }

  /** Round trip: the decimal form of every natural number is accepted as that number. */
  lemma CountRoundTrip(n: nat, field: string)
    ensures ParseCount(NatToString(n), field) == Success(n)
  {
    var s := NatToString(n);
    assert '0' <= s[0] <= '9';
    assert !IsBlank(s);
    ParseCountCharacterized(s, field);
  }

  /** A sign is rejected, even on zero. */
  lemma SignRejected(field: string)
    ensures ParseCount("-1", field).Failure?
    ensures ParseCount("-0", field).Failure?
    ensures ParseCount("+5", field).Failure?
  {
    NonDigitRejected("-1", field, 0);
    NonDigitRejected("-0", field, 0);
    NonDigitRejected("+5", field, 0);
  }

  /** A leading zero is rejected. */
  lemma LeadingZeroRejected(field: string)
    ensures ParseCount("007", field).Failure?
  {
    assert !IsJsWhitespace("007"[0]);
    assert "007"[0] == '0';
    ParseCountCharacterized("007", field);
  }

  /** Surrounding white space is rejected. */
  lemma WhitespaceRejected(field: string)
    ensures ParseCount(" 7", field).Failure?
    ensures ParseCount("7 ", field).Failure?
  {
    assert !IsJsWhitespace(" 7"[1]);
    assert !IsDigit(" 7"[0]);
    ParseCountCharacterized(" 7", field);
    NonDigitRejected("7 ", field, 1);
  }

  /** `parseInt` itself skips leading white space. */
  lemma ParseIntSkipsLeadingSpace()
    ensures ParseInt(" 7") == Some(7)
  {
    assert !IsJsWhitespace("7"[0]) && TrimStart("7") == "7";
    assert IsJsWhitespace(" 7"[0]) && " 7"[1..] == "7";
    var t := TrimStart(" 7");
    assert t == "7";
    assert t[0] != '-' && t[0] != '+' && |t| < 2;
    assert DigitPrefix(t, 10) == "7";
    assert RadixValue("7", 10) == 7;
  }

  /** `parseInt` itself stops at the first character that is not a digit. */
  lemma ParseIntStopsAtTrailingText()
    ensures ParseInt("7 ") == Some(7)
  {
    var t := TrimStart("7 ");
    assert !IsJsWhitespace("7 "[0]);
    assert t == "7 ";
    assert t[0] != '-' && t[0] != '+' && t[1] != 'x' && t[1] != 'X';
    assert "7 "[1..] == " " && DigitPrefix(" ", 10) == [];
    assert DigitPrefix(t, 10) == "7";
    assert RadixValue("7", 10) == 7;
  }

  /** `parseInt` reads a fraction as its integer part. */
  lemma ParseIntTruncatesFraction()
    ensures ParseInt("2.5") == Some(2)
  {
    var t := TrimStart("2.5");
    assert !IsJsWhitespace("2.5"[0]);
    assert t == "2.5";
    assert t[0] != '-' && t[0] != '+' && t[0] != '0';
    assert "2.5"[1..] == ".5" && DigitPrefix(".5", 10) == [];
    assert DigitPrefix(t, 10) == "2";
    assert RadixValue("2", 10) == 2;
  }

  /** A fraction or a trailing character is rejected. */
  lemma FractionRejected(field: string)
    ensures ParseCount("2.5", field).Failure?
    ensures ParseCount("3a", field).Failure?
  {
    NonDigitRejected("2.5", field, 1);
    NonDigitRejected("3a", field, 1);
  }

  /** `parseInt` with no radix reads a `0x` prefix as hexadecimal. */
  lemma ParseIntReadsHex()
    ensures ParseInt("0x10") == Some(16)
  {
    var s := "0x10";
    assert !IsJsWhitespace(s[0]);
    var t := TrimStart(s);
    assert t == s;
    assert t[0] == '0' && t[1] == 'x';
    var rest := t[2..];
    assert rest == "10";
    assert RadixDigit(rest[0], 16) == Some(1) && RadixDigit(rest[1], 16) == Some(0);
    DigitPrefixOfDigits(rest, 16);
    var digits := DigitPrefix(rest, 16);
    assert digits == "10";
    assert digits[..1] == "1" && digits[1] == '0';
    assert "1"[..0] == [] && RadixValue("1", 16) == 1;
    assert RadixValue(digits, 16) == 16;
  }

  /** A hexadecimal literal is rejected, though `parseInt` reads it. */
  lemma HexRejected(field: string)
    ensures ParseCount("0x10", field).Failure?
  {
    NonDigitRejected("0x10", field, 1);
  }

  /** A flag is set only by the exact text `true`. */
  lemma FlagIsExact()
    ensures ParseFlag("true")
    ensures !ParseFlag("True") && !ParseFlag("1") && !ParseFlag("") && !ParseFlag(" true")
  {
  }
}
