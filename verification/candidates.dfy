/** Candidate lists built from an OCR answer: the background script's splitting
    of a streamed-dock answer (`streamedDockOcrHandler`), the content script's
    direct handling (`handleOcrResult`), and the two dropdowns that filter and
    de-duplicate candidates before offering them (`showPhoneNumberDropdown`,
    `showPayeeNameDropdown`), with the stand-alone check `isValidPhoneNumber`.

    What the scripts then do with the page (filling a field, drawing a dropdown,
    showing a notification) is returned as a value. */
module Candidates {
  import opened Wrappers
  import opened JsString
  import OcrText

  /** The number of ASCII digits, `s.replace(/[^\d]/g, '').length`. */
  function DigitCount(s: string): nat { |Filter(s, IsDigit)| }

  predicate NonBlank(s: string) { |s| > 0 }

  predicate HasSeparator(s: string) { ',' in s || '、' in s }

  // ---------------------------------------------------------------- handleOcrResult

  /** The characters `[^\d\-]` keeps. */
  predicate IsPhoneChar(c: char) { IsDigit(c) || c == '-' }

  /** `num.trim().replace(/[^\d\-]/g, '')`. */
  function CleanPhone(s: string): string { Filter(Trim(s), IsPhoneChar) }

  /** A telephone candidate from a list: seven to twelve digits. */
  predicate ListedPhoneLength(p: string) { 7 <= DigitCount(p) <= 12 }

  /** A lone telephone number: nine to twelve digits. */
  predicate LonePhoneLength(p: string) { 9 <= DigitCount(p) <= 12 }

  /** `x` is the cleaned form of one of the comma-separated pieces of `text` and has
      an acceptable length: the candidates `handleOcrResult` offers, stated per piece. */
  predicate ListedPhone(text: string, x: string) {
    var pieces := Split(text, IsListSeparator);
    ListedPhoneLength(x) && exists i :: 0 <= i < |pieces| && CleanPhone(pieces[i]) == x
  }

  /** The list path of the telephone field: cleaned non-empty pieces of valid length. */
  function ListedPhones(text: string): (r: seq<string>)
    ensures forall x :: x in r <==> ListedPhone(text, x)
  {
    var pieces := Split(text, IsListSeparator);
    var kept := Select(MapSeq(pieces, CleanPhone), NonBlank);
    CleanedForms(pieces);
    assert forall x :: ListedPhoneLength(x) ==> NonBlank(x);
    Select(kept, ListedPhoneLength)
  }

  /** The cleaned pieces are exactly the cleaned forms of the pieces. */
  lemma CleanedForms(pieces: seq<string>)
    ensures forall x :: x in MapSeq(pieces, CleanPhone) <==> exists i :: 0 <= i < |pieces| && CleanPhone(pieces[i]) == x
  {
    var cleaned := MapSeq(pieces, CleanPhone);
    forall x | x in cleaned ensures exists i :: 0 <= i < |pieces| && CleanPhone(pieces[i]) == x {
      var i :| 0 <= i < |cleaned| && cleaned[i] == x;
    }
  }

  /** The trimmed non-empty pieces of a payee list, shared by the background and
      the content scripts. */
  function PayeePieces(text: string): (r: seq<string>)
    ensures forall x :: x in r ==> |x| > 0 && x == Trim(x)
  {
    TrimIdempotentAll(Split(text, IsListSeparator));
    Select(MapSeq(Split(text, IsListSeparator), Trim), NonBlank)
  }

  lemma {:induction false} TrimIdempotentAll(xs: seq<string>)
    ensures forall x :: x in MapSeq(xs, Trim) ==> Trim(x) == x
  {
    forall x | x in MapSeq(xs, Trim) ensures Trim(x) == x {
      var i :| 0 <= i < |xs| && MapSeq(xs, Trim)[i] == x;
      TrimIdempotent(xs[i]);
    }
  }

  predicate Distinct(xs: seq<string>) { forall i, j :: 0 <= i < j < |xs| ==> xs[i] != xs[j] }

  /** What `handleOcrResult` does with an answer. */
  datatype Outcome =
    | Ignored                                 // empty answer: nothing happens
    | Rejected                                // an error notification, no field filled
    | Fill(value: string)                     // `fillTextField(value, fieldType)`
    | PhoneDropdown(items: seq<string>)       // `showPhoneNumberDropdown(items)`
    | PayeeDropdown(items: seq<string>)       // `showPayeeNameDropdown(items)`

  /** The telephone branch of `handleOcrResult` for an answer holding `,` or `、`:
      refused when no piece is a candidate, filled when exactly one distinct
      candidate remains, and otherwise the distinct candidates go to the dropdown. */
  function HandlePhoneList(text: string): (r: Outcome)
    ensures r.Rejected? || r.Fill? || r.PhoneDropdown?
    ensures r == Rejected <==> forall x :: !ListedPhone(text, x)
    ensures r.Fill? ==> ListedPhone(text, r.value) && forall x :: ListedPhone(text, x) ==> x == r.value
    ensures r.PhoneDropdown? ==> (|r.items| > 1 && Distinct(r.items)
      && forall x :: x in r.items <==> ListedPhone(text, x))
  {
    var valid := ListedPhones(text);
    assert |valid| > 0 ==> valid[0] in valid;
    OfferPhoneList(valid)
  }

  /** Refuse an empty list, fill its only distinct value, or offer its distinct values. */
  function OfferPhoneList(valid: seq<string>): (r: Outcome)
    ensures r.Rejected? || r.Fill? || r.PhoneDropdown?
    ensures r == Rejected <==> |valid| == 0
    ensures r.Fill? ==> r.value in valid && forall x :: x in valid ==> x == r.value
    ensures r.PhoneDropdown? ==> |r.items| > 1 && Distinct(r.items) && forall x :: x in r.items <==> x in valid
  {
    if |valid| == 0 then Rejected
    else
      var unique := Dedup(valid);
      if |unique| > 1 then PhoneDropdown(unique)
      else
        assert forall x :: x in valid ==> x in unique;
        Fill(unique[0])
  }

  /** The telephone branch of `handleOcrResult` for an answer without a separator:
      the cleaned number is filled when it has nine to twelve digits. */
  function HandleLonePhone(text: string): (r: Outcome)
    ensures r.Rejected? || r.Fill?
    ensures r == Rejected <==> !LonePhoneLength(CleanPhone(text))
    ensures r.Fill? ==> r.value == CleanPhone(text) && forall i :: 0 <= i < |r.value| ==> IsPhoneChar(r.value[i])
  {
    var cleaned := CleanPhone(text);
    if DigitCount(cleaned) > 12 || DigitCount(cleaned) < 9 then Rejected else Fill(cleaned)
  }

  /** The payee branch of `handleOcrResult` for a non-empty answer: a list of more
      than one distinct name opens the dropdown, one name is filled, and otherwise the
      trimmed answer is filled. */
  function HandlePayee(text: string): (r: Outcome)
    requires |text| > 0
    ensures r.Fill? || r.PayeeDropdown?
    ensures r.PayeeDropdown? ==>
      HasSeparator(text) && |r.items| > 1 && Distinct(r.items) && forall x :: x in r.items <==> x in PayeePieces(text)
    ensures r.Fill? && HasSeparator(text) && |PayeePieces(text)| > 0 ==>
      forall x :: x in PayeePieces(text) <==> x == r.value
    ensures !HasSeparator(text) || |PayeePieces(text)| == 0 ==> r == Fill(Trim(text))
  {
    if HasSeparator(text) then
      var unique := Dedup(PayeePieces(text));
      if |unique| > 1 then PayeeDropdown(unique)
      else if |unique| == 1 then Fill(unique[0])
      else Fill(Trim(text))
    else Fill(Trim(text))
  }

  /** `handleOcrResult(text, fieldType)`: an empty answer is ignored, the telephone
      and payee fields have their own branches, and any other field gets the trimmed
      answer. */
  function HandleOcrResult(text: string, field: OcrText.FieldType): (r: Outcome)
    ensures r == Ignored <==> |text| == 0
    ensures r.Rejected? || r.PhoneDropdown? ==> field == OcrText.PhoneNumber
    ensures r.PayeeDropdown? ==> field == OcrText.PayeeName
    ensures field != OcrText.PhoneNumber && field != OcrText.PayeeName && |text| > 0 ==> r == Fill(Trim(text))
  {
    if |text| == 0 then Ignored
    else if field == OcrText.PhoneNumber then
      if HasSeparator(text) then HandlePhoneList(text) else HandleLonePhone(text)
    else if field == OcrText.PayeeName then HandlePayee(text)
    else Fill(Trim(text))
  }

  /** A trailing comma changes the length rule: seven or eight digits are refused on
      their own and accepted with a comma after them. */
  lemma {:induction false} SeparatorRelaxesLength(d: string)
    requires AllDigits(d) && 7 <= |d| <= 12
    ensures HandleOcrResult(d, OcrText.PhoneNumber) == (if |d| >= 9 then Fill(d) else Rejected)
    ensures HandleOcrResult(d + ",", OcrText.PhoneNumber) == Fill(d)
  {
    DigitsAreClean(d);
    assert forall i :: 0 <= i < |d| ==> d[i] != ',' && d[i] != '、';
    assert !HasSeparator(d);
    TrailingCommaListed(d);
  }

  /** The only candidate of `d,` is `d`. */
  lemma {:induction false} TrailingCommaListed(d: string)
    requires AllDigits(d) && 7 <= |d| <= 12
    ensures HasSeparator(d + ",")
    ensures HandlePhoneList(d + ",") == Fill(d)
  {
    var t := d + ",";
    assert t[|d|] == ',';
    TrailingCommaPhones(d);
    assert Dedup([d]) == [d];
  }

  /** Splitting `d,` leaves `d` as the only telephone candidate. */
  lemma {:induction false} TrailingCommaPhones(d: string)
    requires AllDigits(d) && 7 <= |d| <= 12
    ensures ListedPhones(d + ",") == [d]
  {
    TrailingCommaPieces(d);
    CleanedPieces(d);
    var cleaned := MapSeq([d, ""], CleanPhone);
    assert Select(cleaned, NonBlank) == [d] by {
      assert cleaned[1..] == [""];
      assert Select([""], NonBlank) == [];
    }
    assert Select([d], ListedPhoneLength) == [d] by {
      DigitsAreClean(d);
    }
  }

  lemma {:induction false} TrailingCommaPieces(d: string)
    requires AllDigits(d)
    ensures Split(d + ",", IsListSeparator) == [d, ""]
  {
    assert NoneOf(d, IsListSeparator);
    SplitTrailingSeparator(d, ',', IsListSeparator);
  }

  lemma {:induction false} CleanedPieces(d: string)
    requires AllDigits(d)
    ensures MapSeq([d, ""], CleanPhone) == [d, ""]
  {
    MapPair(d, "", CleanPhone);
    assert CleanPhone(d) == d by { DigitsAreClean(d); }
    CleanEmpty();
  }

  lemma {:induction false} MapPair<T, U>(a: T, b: T, f: T -> U)
    ensures MapSeq([a, b], f) == [f(a), f(b)]
  {
    var r := MapSeq([a, b], f);
    assert r[0] == f(a) && r[1] == f(b);
  }

  lemma {:induction false} CleanEmpty()
    ensures CleanPhone("") == ""
  {
    assert Trim("") == "";
  }

  /** A run of digits is its own cleaned form. */
  lemma {:induction false} DigitsAreClean(d: string)
    requires AllDigits(d)
    ensures Trim(d) == d && CleanPhone(d) == d && DigitCount(d) == |d|
  {
  }

  /** Splitting a separator-free string followed by one separator gives it and an
      empty piece. */
  lemma {:induction false} SplitTrailingSeparator(s: string, c: char, isSep: char -> bool)
    requires NoneOf(s, isSep) && isSep(c)
    ensures Split(s + [c], isSep) == [s, []]
  {
    if |s| == 0 {
      assert s + [c] == [c];
      assert Split([], isSep) == [[]];
    } else {
      assert (s + [c])[1..] == s[1..] + [c];
      SplitTrailingSeparator(s[1..], c, isSep);
      assert s == [s[0]] + s[1..];
    }
  }

  // ---------------------------------------------------------------- showPhoneNumberDropdown

  /** The argument of `showPhoneNumberDropdown`: an array of candidates or one string. */
  datatype PhoneInput = Numbers(items: seq<string>) | Text(text: string)

  /** The separator class `[,、;]`. */
  predicate IsDropdownSeparator(c: char) { c == ',' || c == '、' || c == ';' }

  /** Step 1: the candidate array. */
  function CandidateList(input: PhoneInput): (r: seq<string>)
    ensures input.Numbers? ==> r == input.items
    ensures input.Text? ==> |r| >= 1 && forall k :: 0 <= k < |r| ==> NoneOf(r[k], IsDropdownSeparator)
  {
    match input
    case Numbers(xs) => xs
    case Text(s) =>
      if ',' in s || '、' in s || ';' in s then Split(s, IsDropdownSeparator)
      else
        SplitNoSeparator(s, IsDropdownSeparator);
        [s]
  }

  /** The characters `[^\d\-+()（）\s]` keeps. */
  predicate IsDialChar(c: char) {
    IsDigit(c) || c == '-' || c == '+' || c == '(' || c == ')' || c == '（' || c == '）' || IsSpace(c)
  }

  predicate IsFullWidthDigit(c: char) { '０' <= c <= '９' }

  /** `[０-９]` to its ASCII digit, 0xFEE0 below. */
  function HalfDigit(c: char): (r: char)
    ensures !IsFullWidthDigit(r)
    ensures IsFullWidthDigit(c) ==> IsDigit(r)
  {
    if IsFullWidthDigit(c) then (c as int - 0xFEE0) as char else c
  }

  function HalfDigits(s: string): (r: string)
    ensures |r| == |s| && forall i :: 0 <= i < |s| ==> r[i] == HalfDigit(s[i])
  {
    OcrText.MapChars(s, HalfDigit)
  }

  /** The rest of step 2 once the candidate is trimmed and normalised: it needs a
      digit, seven to eleven of them, and is not a thirteen-digit registration number
      marked with `T`. */
  function Judge(str: string, normalized: string): (r: Option<string>)
    ensures r.Some? <==> 7 <= DigitCount(normalized) <= 11
    ensures r.Some? ==> r.value == normalized
  {
    var digits := DigitCount(normalized);
    if digits == 0 then None
    else if digits == 13 && ('T' in str || 't' in str) then None
    else if digits < 7 || digits > 11 then None
    else Some(normalized)
  }

  /** Step 2 for one candidate as written: the cleaning `[^\d\-+()（）\s]` runs
      before the full-width conversion and already removes every full-width digit. */
  function ScreenAsWritten(num: string): (r: Option<string>)
    ensures r.Some? ==> 7 <= DigitCount(r.value) <= 11
  {
    var str := Trim(num);
    if |str| == 0 then None
    else Judge(str, HalfDigits(Filter(str, IsDialChar)))
  }

  /** The full-width conversion of the written order never changes anything. */
  lemma {:induction false} ConversionDeadAsWritten(str: string)
    ensures HalfDigits(Filter(str, IsDialChar)) == Filter(str, IsDialChar)
  {
  }

  /** A number typed in full-width digits is lost as written. */
  lemma {:induction false} FullWidthNumberLostAsWritten(w: string)
    requires forall i :: 0 <= i < |w| ==> IsFullWidthDigit(w[i])
    ensures ScreenAsWritten(w) == None
  {
    FilterNone(w, IsDialChar);
  }

  lemma {:induction false} FilterNone(s: string, keep: char -> bool)
    requires NoneOf(s, keep)
    ensures Filter(s, keep) == []
  {
    if |s| > 0 {
      FilterNone(s[1..], keep);
    }
  }

  /** Step 2 for one candidate with the full-width conversion applied first, so that
      full-width digits count as digits. */
  function Screen(num: string): (r: Option<string>)
    ensures r.Some? ==> 7 <= DigitCount(r.value) <= 11
  {
    ScreenAsWritten(HalfDigits(num))
  }

  /** Corrected, a full-width number and its ASCII form are screened alike. */
  lemma {:induction false} ScreenIgnoresWidth(num: string)
    ensures Screen(num) == Screen(HalfDigits(num))
  {
    assert HalfDigits(HalfDigits(num)) == HalfDigits(num);
  }

  /** Corrected, seven to eleven full-width digits are accepted as their ASCII form. */
  lemma {:induction false} FullWidthNumberAccepted(w: string)
    requires forall i :: 0 <= i < |w| ==> IsFullWidthDigit(w[i])
    requires 7 <= |w| <= 11
    ensures Screen(w) == Some(HalfDigits(w))
  {
    var d := HalfDigits(w);
    assert AllDigits(d);
    DigitsScreened(d);
  }

  /** Seven to eleven ASCII digits pass the screen unchanged. */
  lemma {:induction false} DigitsScreened(d: string)
    requires AllDigits(d) && 7 <= |d| <= 11
    ensures ScreenAsWritten(d) == Some(d) && Screen(d) == Some(d)
  {
    DigitsUnchanged(d);
    assert ScreenAsWritten(d) == Judge(d, d);
  }

  /** Trimming, cleaning and converting leave a run of ASCII digits as it is. */
  lemma {:induction false} DigitsUnchanged(d: string)
    requires AllDigits(d)
    ensures Trim(d) == d && HalfDigits(d) == d && Filter(d, IsDialChar) == d && DigitCount(d) == |d|
  {
    assert forall i :: 0 <= i < |d| ==> IsDialChar(d[i]);
    DigitsTrimmed(d);
    DigitsHalfWidth(d);
    FilterKeepsAll(d, IsDialChar);
    FilterKeepsAll(d, IsDigit);
  }

  lemma {:induction false} FilterKeepsAll(s: string, keep: char -> bool)
    requires forall i :: 0 <= i < |s| ==> keep(s[i])
    ensures Filter(s, keep) == s
  {
  }

  lemma {:induction false} DigitsTrimmed(d: string)
    requires AllDigits(d)
    ensures Trim(d) == d
  {
    assert forall i :: 0 <= i < |d| ==> !IsSpace(d[i]);
  }

  lemma {:induction false} DigitsHalfWidth(d: string)
    requires AllDigits(d)
    ensures HalfDigits(d) == d
  {
    assert forall i :: 0 <= i < |d| ==> HalfDigit(d[i]) == d[i];
  }

  /** The concrete case: a ten-digit Tokyo number read in full-width digits. */
  lemma {:induction false} FullWidthTokyoNumber(w: string)
    requires w == "０３１２３４５６７８"
    ensures ScreenAsWritten(w) == None
    ensures Screen(w) == Some(HalfDigits(w)) && AllDigits(HalfDigits(w))
  {
    assert forall i :: 0 <= i < |w| ==> IsFullWidthDigit(w[i]);
    FullWidthNumberLostAsWritten(w);
    FullWidthNumberAccepted(w);
  }

  /** The screen of one candidate: as written (`widthFirst` false), or with the
      full-width conversion moved in front of the cleaning. */
  function ScreenOf(widthFirst: bool, num: string): (r: Option<string>)
    ensures r.Some? ==> 7 <= DigitCount(r.value) <= 11
  {
    if widthFirst then Screen(num) else ScreenAsWritten(num)
  }

  /** `xs.map(screen).filter(Boolean)`: the values of the candidates that pass, in
      order. */
  function Passing(widthFirst: bool, xs: seq<string>): (r: seq<string>)
    ensures forall x :: x in r <==> exists i :: 0 <= i < |xs| && ScreenOf(widthFirst, xs[i]) == Some(x)
  {
    if |xs| == 0 then []
    else
      var rest := Passing(widthFirst, xs[1..]);
      PassingCons(widthFirst, xs);
      match ScreenOf(widthFirst, xs[0])
      case Some(v) => [v] + rest
      case None => rest
  }

  /** A candidate passes the screen at the head or somewhere in the tail. */
  lemma PassingCons(widthFirst: bool, xs: seq<string>)
    requires |xs| > 0
    ensures forall x :: ((exists i :: 0 <= i < |xs| && ScreenOf(widthFirst, xs[i]) == Some(x))
      <==> (ScreenOf(widthFirst, xs[0]) == Some(x)
            || exists i :: 0 <= i < |xs[1..]| && ScreenOf(widthFirst, xs[1..][i]) == Some(x)))
  {
    var tail := xs[1..];
    forall x | exists i :: 0 <= i < |xs| && ScreenOf(widthFirst, xs[i]) == Some(x)
      ensures ScreenOf(widthFirst, xs[0]) == Some(x)
        || exists i :: 0 <= i < |tail| && ScreenOf(widthFirst, tail[i]) == Some(x)
    {
      var i :| 0 <= i < |xs| && ScreenOf(widthFirst, xs[i]) == Some(x);
      if i > 0 {
        assert tail[i - 1] == xs[i];
      }
    }
    forall x | exists i :: 0 <= i < |tail| && ScreenOf(widthFirst, tail[i]) == Some(x)
      ensures exists i :: 0 <= i < |xs| && ScreenOf(widthFirst, xs[i]) == Some(x)
    {
      var i :| 0 <= i < |tail| && ScreenOf(widthFirst, tail[i]) == Some(x);
      assert xs[i + 1] == tail[i];
    }
  }

  /** The screened candidates of the telephone dropdown. */
  function Screened(widthFirst: bool, xs: seq<string>): (r: seq<string>)
    ensures forall x :: x in r <==> exists i :: 0 <= i < |xs| && ScreenOf(widthFirst, xs[i]) == Some(x)
    ensures forall x :: x in r ==> 7 <= DigitCount(x) <= 11
  {
    var r := Passing(widthFirst, xs);
    assert forall x :: x in r ==> 7 <= DigitCount(x) <= 11 by {
      forall x | x in r ensures 7 <= DigitCount(x) <= 11 {
        var i :| 0 <= i < |xs| && ScreenOf(widthFirst, xs[i]) == Some(x);
      }
    }
    r
  }

  /** What a dropdown function does. */
  datatype DropdownOutcome =
    | NotRecognised                          // a warning notification
    | FieldMissing                           // the target field is not on the page
    | Autofill(value: string)                // the single candidate is entered directly
    | Choose(items: seq<string>)             // a dropdown of distinct candidates

  /** Steps 3 to 8 of `showPhoneNumberDropdown` on the screened candidates: a
      warning when none is left, then the field lookup, then the direct entry of a
      single distinct candidate or the dropdown of all of them. */
  function OfferPhones(valid: seq<string>, fieldPresent: bool): (r: DropdownOutcome)
    ensures r == NotRecognised <==> |valid| == 0
    ensures r == FieldMissing <==> !fieldPresent && |valid| > 0
    ensures r.Autofill? ==> forall x :: x in valid <==> x == r.value
    ensures r.Choose? ==> (|r.items| > 1 && Distinct(r.items) && forall x :: x in r.items <==> x in valid)
  {
    if |valid| == 0 then NotRecognised
    else
      var unique := Dedup(valid);
      if !fieldPresent then FieldMissing
      else if |unique| == 1 then Autofill(unique[0])
      else Choose(unique)
  }

  /** `showPhoneNumberDropdown(phoneNumbers)`, with `fieldPresent` telling whether the
      page has the telephone field; `widthFirst` false is the function as written. */
  function PhoneNumberDropdown(widthFirst: bool, input: PhoneInput, fieldPresent: bool): (r: DropdownOutcome)
    ensures var list := CandidateList(input);
      r == NotRecognised <==> forall i :: 0 <= i < |list| ==> ScreenOf(widthFirst, list[i]) == None
    ensures r == FieldMissing ==> !fieldPresent
    ensures r.Autofill? ==> (7 <= DigitCount(r.value) <= 11
        && forall x :: x in Screened(widthFirst, CandidateList(input)) <==> x == r.value)
    ensures var list := CandidateList(input);
      r.Choose? ==> (|r.items| > 1 && Distinct(r.items)
        && forall x :: x in r.items <==> exists i :: 0 <= i < |list| && ScreenOf(widthFirst, list[i]) == Some(x))
    ensures r.Choose? ==> forall x :: x in r.items ==> 7 <= DigitCount(x) <= 11
  {
    var list := CandidateList(input);
    ScreenedNone(widthFirst, list);
    ScreenedChoice(widthFirst, list, fieldPresent);
    OfferPhones(Screened(widthFirst, list), fieldPresent)
  }

  /** Nothing is left after screening exactly when no candidate passes. */
  lemma {:induction false} ScreenedNone(widthFirst: bool, list: seq<string>)
    ensures |Screened(widthFirst, list)| == 0 <==> forall i :: 0 <= i < |list| ==> ScreenOf(widthFirst, list[i]) == None
  {
    var valid := Screened(widthFirst, list);
    if |valid| > 0 {
      assert valid[0] in valid;
      var i :| 0 <= i < |list| && ScreenOf(widthFirst, list[i]) == Some(valid[0]);
      assert ScreenOf(widthFirst, list[i]) != None;
    }
    if i :| 0 <= i < |list| && ScreenOf(widthFirst, list[i]) != None {
      var x := ScreenOf(widthFirst, list[i]).value;
      assert x in valid;
    }
  }

  /** What the dropdown offers or enters is screened, with seven to eleven digits. */
  lemma {:induction false} ScreenedChoice(widthFirst: bool, list: seq<string>, fieldPresent: bool)
    ensures var r := OfferPhones(Screened(widthFirst, list), fieldPresent);
      r.Autofill? ==> 7 <= DigitCount(r.value) <= 11
    ensures var r := OfferPhones(Screened(widthFirst, list), fieldPresent);
      r.Choose? ==> forall x :: x in r.items <==> exists i :: 0 <= i < |list| && ScreenOf(widthFirst, list[i]) == Some(x)
    ensures var r := OfferPhones(Screened(widthFirst, list), fieldPresent);
      r.Choose? ==> forall x :: x in r.items ==> 7 <= DigitCount(x) <= 11
  {
    var r := OfferPhones(Screened(widthFirst, list), fieldPresent);
    if r.Autofill? {
      assert r.value in Screened(widthFirst, list);
    }
  }

  /** `isValidPhoneNumber`: a non-empty string with seven to eleven ASCII digits. */
  function IsValidPhoneNumber(phone: string): (b: bool)
    ensures b <==> |phone| > 0 && 7 <= DigitCount(phone) <= 11
  {
    if |phone| == 0 then false
    else
      var digits := DigitCount(phone);
      if digits < 7 || digits > 11 then false
      else if digits == 13 && ('T' in phone || 't' in phone) then false
      else true
  }

  /** Every number a phone dropdown offers or enters passes `isValidPhoneNumber`. */
  lemma {:induction false} DropdownOffersValidNumbers(widthFirst: bool, input: PhoneInput, fieldPresent: bool)
    ensures var r := PhoneNumberDropdown(widthFirst, input, fieldPresent);
      (r.Autofill? ==> IsValidPhoneNumber(r.value))
      && (r.Choose? ==> forall x :: x in r.items ==> IsValidPhoneNumber(x))
  {
  }

  /** A twelve-digit number is filled by the list path of `handleOcrResult` but
      dropped by the dropdown, which allows at most eleven digits. */
  lemma {:induction false} TwelveDigitsOnlyInListPath(d: string)
    requires AllDigits(d) && |d| == 12
    ensures HandleOcrResult(d + ",", OcrText.PhoneNumber) == Fill(d)
    ensures PhoneNumberDropdown(false, Numbers([d]), true) == NotRecognised
    ensures PhoneNumberDropdown(true, Numbers([d]), true) == NotRecognised
  {
    SeparatorRelaxesLength(d);
    TwelveDigitsNotRecognised(false, d);
    TwelveDigitsNotRecognised(true, d);
  }

  /** Either screen rejects twelve digits, so the dropdown warns. */
  lemma TwelveDigitsNotRecognised(widthFirst: bool, d: string)
    requires AllDigits(d) && |d| == 12
    ensures PhoneNumberDropdown(widthFirst, Numbers([d]), true) == NotRecognised
  {
    assert CandidateList(Numbers([d])) == [d];
    assert ScreenOf(widthFirst, d) == None by {
      DigitsUnchanged(d);
      assert ScreenAsWritten(d) == None;
    }
  }

  /** A single number read in full-width digits: as written the dropdown warns that
      nothing was recognised; with the conversion first it enters the ASCII form. */
  lemma {:induction false} FullWidthDropdown(w: string)
    requires forall i :: 0 <= i < |w| ==> IsFullWidthDigit(w[i])
    requires 7 <= |w| <= 11
    ensures PhoneNumberDropdown(false, Numbers([w]), true) == NotRecognised
    ensures PhoneNumberDropdown(true, Numbers([w]), true) == Autofill(HalfDigits(w))
  {
    assert CandidateList(Numbers([w])) == [w];
    assert ScreenOf(false, w) == None by { FullWidthNumberLostAsWritten(w); }
    assert ScreenOf(true, w) == Some(HalfDigits(w)) by { FullWidthNumberAccepted(w); }
    assert forall x :: x in Screened(true, [w]) <==> x == HalfDigits(w);
    OneValueFilled(Screened(true, [w]), HalfDigits(w));
  }

  /** Candidates that all screen to one value are entered directly. */
  lemma OneValueFilled(valid: seq<string>, v: string)
    requires |valid| > 0 && forall x :: x in valid <==> x == v
    ensures OfferPhones(valid, true) == Autofill(v)
  {
    var unique := Dedup(valid);
    assert |unique| > 1 ==> unique[0] == unique[1] by {
      if |unique| > 1 {
        assert unique[0] in unique && unique[1] in unique;
      }
    }
  }


  // ---------------------------------------------------------------- showPayeeNameDropdown

  /** `[Ａ-Ｚａ-ｚ０-９・]` to half width: `・` to `･`, letters and digits 0xFEE0 below. */
  function PayeeHalfChar(c: char): (r: char)
    ensures !OcrText.IsFullWidthAlnum(r) && r != '・'
  {
    if c == '・' then '･' else OcrText.FoldWidthChar(c)
  }

  /** No full-width letter, digit or middle dot. */
  predicate HalfWidthOnly(s: string) {
    forall i :: 0 <= i < |s| ==> !OcrText.IsFullWidthAlnum(s[i]) && s[i] != '・'
  }

  function PayeeHalfWidth(s: string): (r: string)
    ensures |r| == |s| && HalfWidthOnly(r)
  {
    OcrText.MapChars(s, PayeeHalfChar)
  }

  /** The first step of `showPayeeNameDropdown`: the non-blank trimmed names, in
      half width, in order. */
  function PayeeCandidates(names: seq<string>): (r: seq<string>)
    ensures forall x :: x in r ==> |x| > 0
    ensures forall x :: x in r ==> HalfWidthOnly(x)
    ensures |r| == 0 <==> forall k :: 0 <= k < |names| ==> |Trim(names[k])| == 0
  {
    var kept := Select(TrimEach(names), NonBlank);
    HalfWidthKeepsNonBlank(kept);
    SelectEmpty(TrimEach(names), NonBlank);
    MapSeq(kept, PayeeHalfWidth)
  }

  /** A payee candidate is exactly the half-width form of a non-blank trimmed name. */
  lemma {:induction false} PayeeCandidateFromName(names: seq<string>, x: string)
    ensures x in PayeeCandidates(names) <==>
      exists k :: 0 <= k < |names| && |Trim(names[k])| > 0 && x == PayeeHalfWidth(Trim(names[k]))
  {
    if x in PayeeCandidates(names) {
      PayeeCandidateHasName(names, x);
    }
    if exists k :: 0 <= k < |names| && |Trim(names[k])| > 0 && x == PayeeHalfWidth(Trim(names[k])) {
      var k :| 0 <= k < |names| && |Trim(names[k])| > 0 && x == PayeeHalfWidth(Trim(names[k]));
      NamePayeeCandidate(names, k);
    }
  }

  /** Converting non-empty names to half width leaves them non-empty. */
  lemma HalfWidthKeepsNonBlank(kept: seq<string>)
    requires forall x :: x in kept ==> NonBlank(x)
    ensures forall x :: x in MapSeq(kept, PayeeHalfWidth) ==> |x| > 0
  {
    var r := MapSeq(kept, PayeeHalfWidth);
    forall x | x in r ensures |x| > 0 {
      var i :| 0 <= i < |r| && r[i] == x;
      assert kept[i] in kept;
    }
  }

  /** Every payee candidate comes from some non-blank name. */
  lemma {:induction false} PayeeCandidateHasName(names: seq<string>, x: string)
    requires x in PayeeCandidates(names)
    ensures exists k :: 0 <= k < |names| && |Trim(names[k])| > 0 && x == PayeeHalfWidth(Trim(names[k]))
  {
    var kept := Select(TrimEach(names), NonBlank);
    assert x in MapSeq(kept, PayeeHalfWidth) by { assert PayeeCandidates(names) == MapSeq(kept, PayeeHalfWidth); }
    KeptFromNames(names, kept, x);
  }

  /** A half-width candidate comes from a non-blank trimmed name. */
  lemma KeptFromNames(names: seq<string>, kept: seq<string>, x: string)
    requires forall y :: y in kept ==> y in TrimEach(names) && NonBlank(y)
    requires x in MapSeq(kept, PayeeHalfWidth)
    ensures exists k :: 0 <= k < |names| && |Trim(names[k])| > 0 && x == PayeeHalfWidth(Trim(names[k]))
  {
    var t := TrimEach(names);
    var r := MapSeq(kept, PayeeHalfWidth);
    var i :| 0 <= i < |r| && r[i] == x;
    assert kept[i] in kept;
    var k :| 0 <= k < |t| && t[k] == kept[i];
    assert t[k] == Trim(names[k]);
  }

  /** Every non-blank name gives a payee candidate. */
  lemma {:induction false} NamePayeeCandidate(names: seq<string>, k: int)
    requires 0 <= k < |names| && |Trim(names[k])| > 0
    ensures PayeeHalfWidth(Trim(names[k])) in PayeeCandidates(names)
  {
    var t := TrimEach(names);
    var kept := Select(t, NonBlank);
    var r := MapSeq(kept, PayeeHalfWidth);
    assert PayeeCandidates(names) == r;
    assert t[k] in t;
    var i :| 0 <= i < |kept| && kept[i] == t[k];
    assert r[i] == PayeeHalfWidth(Trim(names[k]));
  }

  /** The rest of `showPayeeNameDropdown`: a single distinct name is entered directly,
      before the field is looked up; several go to the dropdown. */
  function OfferPayees(valid: seq<string>, fieldPresent: bool): (r: DropdownOutcome)
    ensures r == NotRecognised <==> |valid| == 0
    ensures r == FieldMissing ==> !fieldPresent
    ensures r.Autofill? ==> forall x :: x in valid <==> x == r.value
    ensures r.Choose? ==> (fieldPresent && |r.items| > 1 && Distinct(r.items) && forall x :: x in r.items <==> x in valid)
  {
    if |valid| == 0 then NotRecognised
    else
      var unique := Dedup(valid);
      if |unique| == 1 then Autofill(unique[0])
      else if !fieldPresent then FieldMissing
      else Choose(unique)
  }

  /** `showPayeeNameDropdown(payeeNames)`. */
  function PayeeNameDropdown(names: seq<string>, fieldPresent: bool): (r: DropdownOutcome)
    ensures r == NotRecognised <==> forall k :: 0 <= k < |names| ==> |Trim(names[k])| == 0
    ensures r.Autofill? ==> |r.value| > 0 && r.value in PayeeCandidates(names)
    ensures r.Autofill? && fieldPresent ==> forall x :: x in PayeeCandidates(names) ==> x == r.value
    ensures r.Choose? ==> (|r.items| > 1 && Distinct(r.items)
      && forall x :: x in r.items <==> x in PayeeCandidates(names))
  {
    OfferPayees(PayeeCandidates(names), fieldPresent)
  }

  // ---------------------------------------------------------------- streamedDockOcrHandler

  /** The message the background script sends the tab for a field of a streamed-dock answer. */
  datatype DockAction =
    | NoAction
    | SendPhones(numbers: seq<string>)       // `streamedDockPhoneDropdown`
    | SendPayees(names: seq<string>)         // `showPayeeNameDropdown`
    | SendFill(text: string)                 // `fillTextField`

  predicate HasDigit(s: string) { exists i :: 0 <= i < |s| && IsDigit(s[i]) }

  predicate PhonePiece(s: string) { |s| > 0 && HasDigit(s) }

  /** `processPhoneNumber(phoneText)` of the background handler: a list is split on
      `[,、;]` and keeps the trimmed pieces holding a digit; a lone text is sent as is. */
  function DockPhone(phoneText: string): (r: DockAction)
    ensures |phoneText| == 0 ==> r == NoAction
    ensures r.SendPhones? ==> |r.numbers| > 0
    ensures r.SendPayees? == false && r.SendFill? == false
    ensures |phoneText| > 0 && NoneOf(phoneText, IsDropdownSeparator) ==> r == SendPhones([phoneText])
    ensures |phoneText| > 0 && !NoneOf(phoneText, IsDropdownSeparator) ==>
      r.SendPhones? ==> forall x :: x in r.numbers ==> PhonePiece(x) && Trim(x) == x
  {
    if |phoneText| == 0 then NoAction
    else
      var multiple := ',' in phoneText || '、' in phoneText || ';' in phoneText;
      var numbers := if multiple then Select(MapSeq(Split(phoneText, IsDropdownSeparator), Trim), PhonePiece)
                     else [phoneText];
      TrimIdempotentAll(Split(phoneText, IsDropdownSeparator));
      if |numbers| > 0 then SendPhones(numbers) else NoAction
  }

  /** `processPayeeName(payeeNameText)` of the background handler. */
  function DockPayee(text: string): (r: DockAction)
    ensures |text| == 0 ==> r == NoAction
    ensures |text| > 0 && !HasSeparator(text) ==> r == SendFill(text)
    ensures r.SendPayees? ==> (|r.names| > 1 && Distinct(r.names)
      && forall x :: x in r.names <==> x in PayeePieces(text))
    ensures r.SendPhones? == false
  {
    if |text| == 0 then NoAction
    else if HasSeparator(text) then
      var unique := Dedup(PayeePieces(text));
      if |unique| > 1 then SendPayees(unique)
      else if |unique| == 1 then SendFill(unique[0])
      else NoAction
    else SendFill(text)
  }

  /** The background and content scripts split a payee list alike: for a list the
      dock sends the dropdown or the fill that `handleOcrResult` would choose. The
      lone name differs: the dock sends it untrimmed, the content script trims it. */
  lemma {:induction false} PayeeSplitAgrees(text: string)
    requires |text| > 0
    ensures HasSeparator(text) && |PayeePieces(text)| > 0 ==> (
      && (DockPayee(text).SendPayees? <==> HandleOcrResult(text, OcrText.PayeeName).PayeeDropdown?)
      && (DockPayee(text).SendPayees? ==> DockPayee(text).names == HandleOcrResult(text, OcrText.PayeeName).items)
      && (DockPayee(text).SendFill? ==> HandleOcrResult(text, OcrText.PayeeName) == Fill(DockPayee(text).text)))
    ensures !HasSeparator(text) ==>
      DockPayee(text) == SendFill(text) && HandleOcrResult(text, OcrText.PayeeName) == Fill(Trim(text))
  {
  }

  /** A dock list that reaches the phone dropdown is screened again: whatever the
      dropdown enters or offers has seven to eleven digits and comes from one of the
      sent pieces. */
  lemma {:induction false} DockPhoneThenDropdown(widthFirst: bool, phoneText: string, fieldPresent: bool)
    requires DockPhone(phoneText).SendPhones?
    ensures var r := PhoneNumberDropdown(widthFirst, Numbers(DockPhone(phoneText).numbers), fieldPresent);
      (r.Autofill? ==> exists i :: 0 <= i < |DockPhone(phoneText).numbers| && ScreenOf(widthFirst, DockPhone(phoneText).numbers[i]) == Some(r.value))
      && (r.Choose? ==> forall x :: x in r.items ==> 7 <= DigitCount(x) <= 11)
  {
    var r := PhoneNumberDropdown(widthFirst, Numbers(DockPhone(phoneText).numbers), fieldPresent);
    if r.Autofill? {
      assert r.value in Screened(widthFirst, DockPhone(phoneText).numbers);
    }
  }
}
