/** `formatPhoneNumber` of the OCR background script: a heuristic that groups a
    Japanese telephone number with hyphens from a small prefix table, and degrades
    to the empty string instead of failing. */
module PhoneFormat {
  import opened JsString

  /** Length limit above which the formatter gives up. */
  const MaxDigits: nat := 11

  function KeepDigits(s: string): string { Filter(s, IsDigit) }
  function RemoveHyphens(s: string): string { Filter(s, IsNotHyphen) }

  /** The three groups of `/^\d{2,4}-\d{2,4}-\d{4}$/` with first group `a` and second `b` long. */
  predicate GroupedAs(s: string, a: nat, b: nat) {
    && |s| == a + b + 6
    && s[a] == '-' && s[a + b + 1] == '-'
    && AllDigits(s[..a]) && AllDigits(s[a + 1..a + b + 1]) && AllDigits(s[a + b + 2..])
  }

  /** `/^\d{2,4}-\d{2,4}-\d{4}$/.test(s)`. */
  predicate IsGrouped(s: string) {
    exists a: nat, b: nat :: 2 <= a <= 4 && 2 <= b <= 4 && GroupedAs(s, a, b)
  }

  /** `d.replace(/^(\d{a})(\d{b})(\d+)$/, '$1-$2-$3')` for a digit string of the right length. */
  function Group3(d: string, a: nat, b: nat): string
    requires a + b <= |d|
  {
    d[..a] + "-" + d[a..a + b] + "-" + d[a + b..]
  }

  /** Prefixes that get a two-digit area code in a ten-digit number. */
  predicate TwoDigitArea(d: string) {
    StartsWith(d, "03") || StartsWith(d, "06") || StartsWith(d, "04")
  }

  /** Prefixes that get a three-digit area code in a ten-digit number. */
  predicate ThreeDigitArea(d: string) {
    || StartsWith(d, "052") || StartsWith(d, "072") || StartsWith(d, "075")
    || StartsWith(d, "078") || StartsWith(d, "082") || StartsWith(d, "092")
  }

  /** The formatting of a bare digit string, by length and prefix. */
  function FormatDigits(d: string): string
    requires AllDigits(d)
  {
    if |d| == 10 then
      if TwoDigitArea(d) then Group3(d, 2, 4)
      else if ThreeDigitArea(d) then Group3(d, 3, 3)
      else if StartsWith(d, "0120") then Group3(d, 4, 2)
      else if d[0] == '0' then
        (if '4' <= d[1] <= '9' then Group3(d, 3, 3) else Group3(d, 2, 4))
      else Group3(d, 3, 3)
    else if |d| == 11 then Group3(d, 3, 4)
    else if |d| == 8 then d[..4] + "-" + d[4..]
    else if |d| == 9 then Group3(d, 3, 3)
    else d
  }

  /** `formatPhoneNumber(digits)`. */
  function FormatPhoneNumber(input: string): (r: string)
    ensures input == [] || |KeepDigits(input)| > MaxDigits ==> r == []
    ensures forall i :: 0 <= i < |r| ==> IsDigit(r[i]) || r[i] == '-'
  {
    if input == [] then []
    else if |KeepDigits(input)| > MaxDigits then []
    else if '-' in input && IsGrouped(input) then GroupedChars(input); input
    else FormatDigitsChars(KeepDigits(input)); FormatDigits(KeepDigits(input))
  }

  /** The formatter writes only digits and hyphens. */
  lemma {:induction false} FormatDigitsChars(d: string)
    requires AllDigits(d)
    ensures forall i :: 0 <= i < |FormatDigits(d)| ==> IsDigit(FormatDigits(d)[i]) || FormatDigits(d)[i] == '-'
  {
    var r := FormatDigits(d);
    forall i | 0 <= i < |r| ensures IsDigit(r[i]) || r[i] == '-' {
      if r != d {
        var a: nat, b: nat :| a + b <= |d| && (r == Group3(d, a, b) || r == d[..4] + "-" + d[4..]);
        if r == Group3(d, a, b) {
          Group3Chars(d, a, b, i);
        } else if i > 4 {
          assert r[i] == d[i - 1];
        } else if i < 4 {
          assert r[i] == d[i];
        }
      }
    }
  }

  lemma {:induction false} Group3Chars(d: string, a: nat, b: nat, i: nat)
    requires AllDigits(d) && a + b <= |d| && i < |Group3(d, a, b)|
    ensures IsDigit(Group3(d, a, b)[i]) || Group3(d, a, b)[i] == '-'
  {
    var r := Group3(d, a, b);
    if i < a {
      assert r[i] == d[i];
    } else if a < i < a + b + 1 {
      assert r[i] == d[i - 1];
    } else if i > a + b + 1 {
      assert r[i] == d[i - 2];
    }
  }

  lemma {:induction false} GroupedChars(s: string)
    requires IsGrouped(s)
    ensures forall i :: 0 <= i < |s| ==> IsDigit(s[i]) || s[i] == '-'
  {
    var a: nat, b: nat :| 2 <= a <= 4 && 2 <= b <= 4 && GroupedAs(s, a, b);
    forall i | 0 <= i < |s| ensures IsDigit(s[i]) || s[i] == '-' {
      if i < a {
        assert s[i] == s[..a][i];
      } else if a < i < a + b + 1 {
        assert s[i] == s[a + 1..a + b + 1][i - a - 1];
      } else if a + b + 1 < i {
        assert s[i] == s[a + b + 2..][i - a - b - 2];
      }
    }
  }

  /** Filtering with a predicate that drops `-` erases an inserted hyphen. */
  lemma {:induction false} FilterDropsHyphen(x: string, y: string, keep: char -> bool)
    requires !keep('-')
    ensures Filter(x + "-" + y, keep) == Filter(x, keep) + Filter(y, keep)
  {
    FilterConcat(x + "-", y, keep);
    FilterConcat(x, "-", keep);
  }

  lemma {:induction false} Group3Digits(d: string, a: nat, b: nat)
    requires AllDigits(d) && a + b <= |d|
    ensures RemoveHyphens(Group3(d, a, b)) == d
    ensures KeepDigits(Group3(d, a, b)) == d
  {
    var x, y, z := d[..a], d[a..a + b], d[a + b..];
    assert AllDigits(x) && AllDigits(y) && AllDigits(z);
    assert Group3(d, a, b) == (x + "-" + y) + "-" + z;
    assert d == x + y + z;
    FilterDropsHyphen(x + "-" + y, z, IsNotHyphen);
    FilterDropsHyphen(x, y, IsNotHyphen);
    FilterDropsHyphen(x + "-" + y, z, IsDigit);
    FilterDropsHyphen(x, y, IsDigit);
  }

  lemma {:induction false} SplitFourDigits(d: string)
    requires AllDigits(d) && |d| == 8
    ensures KeepDigits(d[..4] + "-" + d[4..]) == d
    ensures RemoveHyphens(d[..4] + "-" + d[4..]) == d
  {
    assert AllDigits(d[..4]) && AllDigits(d[4..]);
    FilterDropsHyphen(d[..4], d[4..], IsDigit);
    FilterDropsHyphen(d[..4], d[4..], IsNotHyphen);
    assert d == d[..4] + d[4..];
  }

  /** Removing the hyphens of a formatted number gives back exactly the digits of the
      input: the formatter only inserts hyphens and never adds, drops or reorders digits. */
  lemma {:induction false} FormatKeepsDigits(input: string)
    requires |KeepDigits(input)| <= MaxDigits
    ensures RemoveHyphens(FormatPhoneNumber(input)) == KeepDigits(input)
  {
    var r := FormatPhoneNumber(input);
    if input == [] {
    } else if '-' in input && IsGrouped(input) {
      GroupedChars(input);
      RemoveHyphensOfDigitsAndHyphens(input);
    } else {
      var d := KeepDigits(input);
      if |d| == 10 || |d| == 11 || |d| == 9 {
        if |d| == 10 && TwoDigitArea(d) { Group3Digits(d, 2, 4); }
        else if |d| == 10 && ThreeDigitArea(d) { Group3Digits(d, 3, 3); }
        else if |d| == 10 && StartsWith(d, "0120") { Group3Digits(d, 4, 2); }
        else if |d| == 10 && d[0] == '0' { Group3Digits(d, 3, 3); Group3Digits(d, 2, 4); }
        else if |d| == 10 { Group3Digits(d, 3, 3); }
        else if |d| == 11 { Group3Digits(d, 3, 4); }
        else { Group3Digits(d, 3, 3); }
      } else if |d| == 8 {
        SplitFourDigits(d);
      }
    }
  }

  lemma {:induction false} RemoveHyphensOfDigitsAndHyphens(s: string)
    requires forall i :: 0 <= i < |s| ==> IsDigit(s[i]) || s[i] == '-'
    ensures RemoveHyphens(s) == KeepDigits(s)
  {
    if |s| > 0 {
      RemoveHyphensOfDigitsAndHyphens(s[1..]);
    }
  }

  /** An input already in 2–4/2–4/4 grouping with at most eleven digits is returned as is. */
  lemma {:induction false} GroupedUnchanged(input: string)
    requires IsGrouped(input) && |KeepDigits(input)| <= MaxDigits
    ensures FormatPhoneNumber(input) == input
  {
    var a: nat, b: nat :| 2 <= a <= 4 && 2 <= b <= 4 && GroupedAs(input, a, b);
    assert input[a] == '-';
  }

  lemma {:induction false} Group3Grouped(d: string, a: nat, b: nat)
    requires AllDigits(d) && 2 <= a <= 4 && 2 <= b <= 4 && |d| == a + b + 4
    ensures IsGrouped(Group3(d, a, b))
  {
    var s := Group3(d, a, b);
    assert s[..a] == d[..a];
    assert s[a + 1..a + b + 1] == d[a..a + b];
    assert s[a + b + 2..] == d[a + b..];
    assert GroupedAs(s, a, b);
  }

  /** A ten- or eleven-digit number grouped by the table is returned as is. */
  lemma {:induction false} GroupedFixed(d: string, a: nat, b: nat)
    requires AllDigits(d) && 2 <= a <= 4 && 2 <= b <= 4 && |d| == a + b + 4 <= MaxDigits
    ensures FormatPhoneNumber(Group3(d, a, b)) == Group3(d, a, b)
  {
    var r := Group3(d, a, b);
    Group3Grouped(d, a, b);
    Group3Digits(d, a, b);
    assert r[a] == '-';
    GroupedUnchanged(r);
  }

  /** An eight-digit number split 4–4 is not in the grouped form, so it is formatted
      again from its digits, with the same result. */
  lemma {:induction false} EightFixed(d: string)
    requires AllDigits(d) && |d| == 8
    ensures FormatPhoneNumber(d[..4] + "-" + d[4..]) == d[..4] + "-" + d[4..]
  {
    var r := d[..4] + "-" + d[4..];
    SplitFourDigits(d);
    assert r[4] == '-';
    assert !IsGrouped(r);
  }

  /** A nine-digit number split 3–3–3 is not in the grouped form either. */
  lemma {:induction false} NineFixed(d: string)
    requires AllDigits(d) && |d| == 9
    ensures FormatPhoneNumber(Group3(d, 3, 3)) == Group3(d, 3, 3)
  {
    var r := Group3(d, 3, 3);
    Group3Digits(d, 3, 3);
    assert r[3] == '-';
    assert r[2] == d[2] && r[6] == d[5];
    assert !IsGrouped(r);
  }

  /** Formatting is idempotent: reformatting an output returns it unchanged. */
  lemma {:induction false} FormatIdempotent(input: string)
    ensures FormatPhoneNumber(FormatPhoneNumber(input)) == FormatPhoneNumber(input)
  {
    var r := FormatPhoneNumber(input);
    if input == [] || |KeepDigits(input)| > MaxDigits {
    } else if '-' in input && IsGrouped(input) {
      assert r == input;
    } else {
      var d := KeepDigits(input);
      assert r == FormatDigits(d);
      if |d| == 10 || |d| == 11 {
        var a: nat, b: nat;
        if |d| == 11 { a, b := 3, 4; }
        else if TwoDigitArea(d) { a, b := 2, 4; }
        else if ThreeDigitArea(d) { a, b := 3, 3; }
        else if StartsWith(d, "0120") { a, b := 4, 2; }
        else if d[0] == '0' && '4' <= d[1] <= '9' { a, b := 3, 3; }
        else if d[0] == '0' { a, b := 2, 4; }
        else { a, b := 3, 3; }
        assert r == Group3(d, a, b);
        GroupedFixed(d, a, b);
      } else if |d| == 8 {
        EightFixed(d);
      } else if |d| == 9 {
        NineFixed(d);
      } else {
        assert r == d;
        assert '-' !in r;
      }
    }
  }

  /** Bare Tokyo digits get a two-digit area code. */
  lemma {:induction false} FormatTokyoExample(s: string)
    requires s == "0312345678"
    ensures FormatPhoneNumber(s) == "03-1234-5678"
  {
    assert FormatPhoneNumber(s) == FormatDigits(s) by {
      assert AllDigits(s);
      assert KeepDigits(s) == s;
      assert '-' !in s;
    }
    assert FormatDigits(s) == Group3(s, 2, 4) by {
      assert AllDigits(s);
      assert TwoDigitArea(s);
    }
    assert Group3(s, 2, 4) == "03-1234-5678" by {
      var x, y, z := "03", "1234", "5678";
      assert s == x + y + z;
      assert s[..2] == x && s[2..6] == y && s[6..] == z;
    }
  }

  /** An eleven-digit mobile number is grouped 3-4-4. */
  lemma {:induction false} FormatMobileExample(s: string)
    requires s == "09012345678"
    ensures FormatPhoneNumber(s) == "090-1234-5678"
  {
    assert FormatPhoneNumber(s) == FormatDigits(s) by {
      assert AllDigits(s);
      assert KeepDigits(s) == s;
      assert '-' !in s;
    }
    assert FormatDigits(s) == Group3(s, 3, 4) by {
      assert AllDigits(s);
    }
    assert Group3(s, 3, 4) == "090-1234-5678" by {
      var x, y, z := "090", "1234", "5678";
      assert s == x + y + z;
      assert s[..3] == x && s[3..7] == y && s[7..] == z;
    }
  }

  /** Twelve digits are more than any Japanese number has: the result is empty. */
  lemma {:induction false} FormatTooLongExample()
    ensures FormatPhoneNumber("031234567890") == ""
  {
    var s := "031234567890";
    assert AllDigits(s);
    assert KeepDigits(s) == s;
  }
}
