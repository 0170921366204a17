/** The combined payee-name/telephone recognition of the OCR background script: the
    prompt sent to the vision model for each model and field (`getPromptForModel`)
    and the parsing of the two-line answer (`parseMultiFieldResult`). */
module MultiField {
  import opened Wrappers
  import opened JsString
  import opened OcrText

  // ---------------------------------------------------------------- answer format

  /** The label of the company line the payee prompt asks for and the parser searches. */
  const CompanyTag: string := "会社名:"

  /** The label of the telephone line. */
  const PhoneTag: string := "電話番号:"

  /** The placeholder the prompt puts after each label. */
  const Placeholder: string := "[抽出結果]"

  /** An answer in the two-line format the payee prompt requests. */
  function FormatAnswer(company: string, phone: string): string {
    CompanyTag + " " + company + "\n" + PhoneTag + " " + phone
  }

  // ---------------------------------------------------------------- the label regular expression

  /** White space that is not a line terminator. */
  predicate IsInlineSpace(c: char) { IsSpace(c) && !IsLineTerminator(c) }

  /** Length of the longest prefix of `s` whose characters all satisfy `p`. */
  function Run(s: string, p: char -> bool): (n: nat)
    ensures n <= |s| && forall i :: 0 <= i < n ==> p(s[i])
    ensures n < |s| ==> !p(s[n])
  {
    if |s| > 0 && p(s[0]) then 1 + Run(s[1..], p) else 0
  }

  /** The first line terminator at or after `c`, or the end of the text. */
  function LineEnd(s: string, c: nat): (e: nat)
    requires c <= |s|
    ensures c <= e <= |s|
    ensures forall i :: c <= i < e ==> !IsLineTerminator(s[i])
    ensures e < |s| ==> IsLineTerminator(s[e])
    decreases |s| - c
  {
    if c == |s| || IsLineTerminator(s[c]) then c else LineEnd(s, c + 1)
  }

  /** `(.*?)(?:\n|$)` tried at `c`: the lazy group grows over characters `.` accepts
      until a `\n` or the end of the text follows; any other line terminator stops it
      without a match. */
  function CaptureAt(s: string, c: nat): (r: Option<string>)
    requires c <= |s|
    ensures r.Some? ==> NoneOf(r.value, IsLineTerminator)
  {
    var e := LineEnd(s, c);
    if e == |s| || s[e] == '\n' then
      assert forall i :: 0 <= i < e - c ==> s[c..e][i] == s[c + i];
      Some(s[c..e])
    else None
  }

  /** The greedy white-space loop `[…]*` after the label: the longest run first, then
      one character shorter at a time, until the rest of the pattern matches. */
  function TryWidths(s: string, q: nat, w: nat): (r: Option<string>)
    requires q + w <= |s|
    ensures r.Some? ==> NoneOf(r.value, IsLineTerminator)
    decreases w
  {
    var r := CaptureAt(s, q + w);
    if r.Some? || w == 0 then r else TryWidths(s, q, w - 1)
  }

  /** `s.match(/<tag>[ws]*(.*?)(?:\n|$)/)` searched from position `p`: the leftmost
      position at which the whole pattern matches, and the captured group there. */
  function MatchFrom(s: string, tag: string, ws: char -> bool, p: nat): (r: Option<string>)
    ensures r.Some? ==> NoneOf(r.value, IsLineTerminator)
    ensures r.Some? ==> Occurs(s, tag)
    decreases |s| - p
  {
    if p + |tag| > |s| then None
    else if s[p..p + |tag|] == tag then
      assert Occurs(s, tag) by { assert TagAt(s, tag, p); }
      var q := p + |tag|;
      var r := TryWidths(s, q, Run(s[q..], ws));
      if r.Some? then r else MatchFrom(s, tag, ws, p + 1)
    else MatchFrom(s, tag, ws, p + 1)
  }

  /** The label occurs somewhere in `s`. */
  predicate Occurs(s: string, tag: string) {
    exists p: nat :: p <= |s| && TagAt(s, tag, p)
  }

  /** The label search as written, `[\s　]*`: the white space after the label may run
      over line breaks. */
  function ExtractLabelAsWritten(s: string, tag: string): (r: Option<string>)
    ensures r.Some? ==> NoneOf(r.value, IsLineTerminator)
    ensures r.Some? ==> Occurs(s, tag)
  {
    MatchFrom(s, tag, IsSpace, 0)
  }

  /** The label search with the white space after the label confined to its line. */
  function ExtractLabel(s: string, tag: string): (r: Option<string>)
    ensures r.Some? ==> NoneOf(r.value, IsLineTerminator)
    ensures r.Some? ==> Occurs(s, tag)
  {
    MatchFrom(s, tag, IsInlineSpace, 0)
  }

  /** On a text without line terminators the two label searches agree: the
      difference between them is only whether the white space may cross a line. */
  lemma {:induction false} LabelsAgreeOnOneLine(s: string, tag: string)
    requires NoneOf(s, IsLineTerminator)
    ensures ExtractLabel(s, tag) == ExtractLabelAsWritten(s, tag)
  {
    MatchFromAlike(s, tag, 0);
  }

  lemma {:induction false} MatchFromAlike(s: string, tag: string, p: nat)
    requires NoneOf(s, IsLineTerminator)
    ensures MatchFrom(s, tag, IsInlineSpace, p) == MatchFrom(s, tag, IsSpace, p)
    decreases |s| - p
  {
    if p + |tag| <= |s| {
      MatchFromAlike(s, tag, p + 1);
      if s[p..p + |tag|] == tag {
        var q := p + |tag|;
        RunAlike(s[q..]);
      }
    }
  }

  /** Without line terminators, a run of white space is a run of inline white space. */
  lemma RunAlike(t: string)
    requires NoneOf(t, IsLineTerminator)
    ensures Run(t, IsInlineSpace) == Run(t, IsSpace)
  {
    var a, b := Run(t, IsInlineSpace), Run(t, IsSpace);
    assert a < |t| ==> !IsSpace(t[a]);
    assert b < |t| ==> !IsInlineSpace(t[b]);
  }

  /** `match && match[1] ? match[1].trim() : ''`, with the label search as written
      (`inline` false) or with its white space confined to the label's line (`inline`
      true). */
  function FieldValue(inline: bool, s: string, tag: string): (r: string)
    ensures NoneOf(r, IsLineTerminator)
  {
    match (if inline then ExtractLabel(s, tag) else ExtractLabelAsWritten(s, tag))
    case Some(c) => TrimNoneOf(c, IsLineTerminator); Trim(c)
    case None => ""
  }

  // ---------------------------------------------------------------- parseMultiFieldResult

  /** `/^\s*<word>:?\s*$/`: nothing but the word, optionally with a colon. */
  predicate IsLabelOnly(v: string, word: string) {
    Trim(v) == word || Trim(v) == word + ":"
  }

  /** `/^\s*<word>/`. */
  predicate StartsWithLabel(v: string, word: string) {
    StartsWith(v[LeadingSpaces(v)..], word)
  }

  /** The class `[\d\-\s\(\)]`. */
  predicate IsNumberishChar(c: char) {
    IsDigit(c) || c == '-' || IsSpace(c) || c == '(' || c == ')'
  }

  /** `/^\d[\d\-\s\(\)]*$/`: a digit followed only by digits, hyphens, spaces and parentheses. */
  predicate IsNumberLike(v: string) {
    |v| > 0 && IsDigit(v[0]) && forall i :: 0 <= i < |v| ==> IsNumberishChar(v[i])
  }

  /** The filter applied to each trimmed company candidate. */
  predicate KeepCandidate(v: string) {
    && |v| > 0
    && !StartsWithLabel(v, "電話番号")
    && !StartsWith(ToLower(v), "tel")
    && !StartsWith(ToLower(v), "phone")
    && !IsNumberLike(v)
  }

  /** A kept candidate: trimmed and passing the filter. */
  predicate TidyCandidate(v: string) { KeepCandidate(v) && Trim(v) == v }

  /** `parts.map(name => name.trim()).filter(…)`. */
  function FilterCandidates(parts: seq<string>): (r: seq<string>)
    ensures forall k :: 0 <= k < |r| ==> TidyCandidate(r[k])
  {
    var r := Select(TrimEach(parts), KeepCandidate);
    forall k | 0 <= k < |r| ensures TidyCandidate(r[k]) {
      CandidateFromPiece(parts, r[k]);
    }
    r
  }

  /** Every trimmed piece that passes the filter is a kept candidate. */
  lemma {:induction false} CandidateFromPiece(parts: seq<string>, x: string)
    requires x in TrimEach(parts) && KeepCandidate(x)
    ensures TidyCandidate(x)
  {
    var t := TrimEach(parts);
    var k :| 0 <= k < |t| && t[k] == x;
    TrimIdempotent(parts[k]);
  }

  /** Pieces without a comma give candidates without a comma. */
  lemma {:induction false} FilterCandidatesNoComma(parts: seq<string>)
    requires forall k :: 0 <= k < |parts| ==> NoneOf(parts[k], IsComma)
    ensures forall k :: 0 <= k < |FilterCandidates(parts)| ==> NoneOf(FilterCandidates(parts)[k], IsComma)
  {
    var r := FilterCandidates(parts);
    var t := TrimEach(parts);
    forall k | 0 <= k < |r| ensures NoneOf(r[k], IsComma) {
      assert r[k] in t;
      var j :| 0 <= j < |t| && t[j] == r[k];
      CommaFreeTrim(parts[j]);
    }
  }

  /** The kept candidates are exactly the trimmed parts that pass the filter. */
  lemma {:induction false} FilterCandidatesMembers(parts: seq<string>)
    ensures forall x :: x in FilterCandidates(parts) <==> (exists k :: 0 <= k < |parts| && Trim(parts[k]) == x && KeepCandidate(x))
  {
    var t := TrimEach(parts);
    forall x ensures x in t <==> exists k :: 0 <= k < |parts| && Trim(parts[k]) == x {
      if x in t {
        var k :| 0 <= k < |t| && t[k] == x;
      }
      if exists k :: 0 <= k < |parts| && Trim(parts[k]) == x {
        var k :| 0 <= k < |parts| && Trim(parts[k]) == x;
        assert t[k] == x;
      }
    }
  }

  lemma {:induction false} CommaFreeTrim(p: string)
    ensures NoneOf(p, IsComma) ==> NoneOf(Trim(p), IsComma)
  {
    if NoneOf(p, IsComma) {
      TrimNoneOf(p, IsComma);
    }
  }

  /** The two values `parseMultiFieldResult` returns. */
  datatype MultiFieldResult = MultiFieldResult(payee: string, phone: string)

  /** The company value after the multi-candidate filtering: a value with a list
      separator becomes the `,`-join of its kept candidates, or empty when none is kept. */
  function CandidateList(c: string): (r: string)
    ensures ',' in r ==> forall k :: 0 <= k < |Split(r, IsComma)| ==> KeepCandidate(Split(r, IsComma)[k])
    ensures !IsLabelOnly(c, "電話番号") ==> !IsLabelOnly(r, "電話番号")
    ensures NoneOf(c, IsListSeparator) ==> r == c
  {
    if c != "" && (',' in c || '、' in c) then
      assert !NoneOf(c, IsListSeparator) by {
        var i :| 0 <= i < |c| && (c[i] == ',' || c[i] == '、');
        assert IsListSeparator(c[i]);
      }
      ListValue(c)
    else
      NoCommaNoSplit(c);
      c
  }

  /** `parseMultiFieldResult(text)`: both labelled values, post-processed for their
      fields, a company value that is only the telephone label blanked, and a list of
      company candidates filtered. `inline` false is the function as written; `inline`
      true confines the label's white space to its line. */
  function ParseMultiField(inline: bool, text: string): (r: MultiFieldResult)
    ensures forall i :: 0 <= i < |r.phone| ==> IsPhoneOutChar(r.phone[i])
    ensures !IsLabelOnly(r.payee, "電話番号")
    ensures ',' in r.payee ==> forall k :: 0 <= k < |Split(r.payee, IsComma)| ==> KeepCandidate(Split(r.payee, IsComma)[k])
  {
    Checked(PostProcess(FieldValue(inline, text, CompanyTag), PayeeName),
            PostProcess(FieldValue(inline, text, PhoneTag), PhoneNumber))
  }

  /** The label checks and the candidate filtering on the post-processed values. */
  function Checked(company: string, phone: string): (r: MultiFieldResult)
    requires forall i :: 0 <= i < |phone| ==> IsPhoneOutChar(phone[i])
    ensures r.phone == phone
    ensures !IsLabelOnly(r.payee, "電話番号")
    ensures ',' in r.payee ==> forall k :: 0 <= k < |Split(r.payee, IsComma)| ==> KeepCandidate(Split(r.payee, IsComma)[k])
    ensures NoneOf(company, IsListSeparator) && !IsLabelOnly(company, "電話番号") ==> r.payee == company
  {
    var company1 := if IsLabelOnly(company, "電話番号") then "" else company;
    var phone1 := if IsLabelOnly(phone, "会社名") then "" else phone;
    var company2 := CandidateList(company1);
    var phone2 := if phone1 != "" && StartsWithLabel(phone1, "会社名") then "" else phone1;
    PhoneLabelChecksDead(phone);
    MultiFieldResult(company2, phone2)
  }

  lemma {:induction false} SplitPiecesCommaFree(c: string)
    ensures forall k :: 0 <= k < |Split(c, IsListSeparator)| ==> NoneOf(Split(c, IsListSeparator)[k], IsComma)
  {
    var parts := Split(c, IsListSeparator);
    forall k | 0 <= k < |parts| ensures NoneOf(parts[k], IsComma) {
      assert NoneOf(parts[k], IsListSeparator);
    }
  }

  lemma {:induction false} NoCommaNoSplit(c: string)
    ensures ',' !in c ==> NoneOf(c, IsComma)
  {
  }

  /** A company value with a list separator: the `,`-join of its kept candidates, or
      empty when none is kept. */
  function ListValue(c: string): (r: string)
    ensures ',' in r ==> forall k :: 0 <= k < |Split(r, IsComma)| ==> KeepCandidate(Split(r, IsComma)[k])
    ensures !IsLabelOnly(r, "電話番号")
  {
    var names := FilterCandidates(Split(c, IsListSeparator));
    if |names| > 0 then
      JoinedList(c);
      Join(names, ",")
    else
      EmptyNotLabel("");
      ""
  }

  /** The empty value is not the telephone label. */
  lemma EmptyNotLabel(v: string)
    requires |v| == 0
    ensures !IsLabelOnly(v, "電話番号") && ',' !in v
  {
    assert Trim(v) == v;
  }

  /** The `,`-join of the kept candidates splits back into them, and is never the
      bare telephone label. */
  lemma JoinedList(c: string)
    requires |FilterCandidates(Split(c, IsListSeparator))| > 0
    ensures var j := Join(FilterCandidates(Split(c, IsListSeparator)), ",");
      (forall k :: 0 <= k < |Split(j, IsComma)| ==> KeepCandidate(Split(j, IsComma)[k]))
      && !IsLabelOnly(j, "電話番号")
  {
    var names := FilterCandidates(Split(c, IsListSeparator));
    assert Split(Join(names, ","), IsComma) == names by {
      SplitPiecesCommaFree(c);
      FilterCandidatesNoComma(Split(c, IsListSeparator));
      SplitJoin(names);
    }
    assert forall k :: 0 <= k < |names| ==> KeepCandidate(names[k]) && Trim(names[k]) == names[k] by {
      forall k | 0 <= k < |names| ensures KeepCandidate(names[k]) && Trim(names[k]) == names[k] {
        assert TidyCandidate(names[k]);
      }
    }
    JoinedCandidatesNotLabel(names);
  }

  /** A join of kept candidates is never the bare telephone label. */
  lemma {:induction false} JoinedCandidatesNotLabel(names: seq<string>)
    requires |names| > 0
    requires forall k :: 0 <= k < |names| ==> KeepCandidate(names[k]) && Trim(names[k]) == names[k]
    ensures !IsLabelOnly(Join(names, ","), "電話番号")
  {
    var n := names[0];
    assert KeepCandidate(n) && Trim(n) == n;
    JoinStart(names);
    KeptStart(n);
    if IsLabelOnly(Join(names, ","), "電話番号") {
      LabelOnlyPrefix(Join(names, ","), n);
    }
  }

  /** A `,`-join begins with its first piece, followed by a comma or nothing. */
  lemma {:induction false} JoinStart(names: seq<string>)
    requires |names| > 0
    ensures var r, n := Join(names, ","), names[0];
      StartsWith(r, n) && (|r| == |n| || r[|n|] == ',')
  {
    if |names| > 1 {
      var r, n := Join(names, ","), names[0];
      assert r == n + ("," + Join(names[1..], ","));
    }
  }

  /** A kept, trimmed candidate starts with neither white space nor the telephone label. */
  lemma {:induction false} KeptStart(n: string)
    requires KeepCandidate(n) && Trim(n) == n
    ensures !IsSpace(n[0]) && !StartsWith(n, "電話番号")
  {
    assert LeadingSpaces(n) == 0;
    assert n[0..] == n;
  }

  lemma {:induction false} LabelOnlyPrefix(r: string, n: string)
    requires |n| > 0 && StartsWith(r, n) && !IsSpace(n[0]) && (|r| == |n| || r[|n|] == ',')
    requires IsLabelOnly(r, "電話番号")
    ensures StartsWith(n, "電話番号")
  {
    var i, j := TrimIsSlice(r);
    assert r[0] == n[0];
    assert i == 0;
    var w := "電話番号";
    assert |Trim(r)| >= 4 && Trim(r)[..4] == w;
    assert r[..4] == w by {
      assert r[..4] == r[i..j][..4];
    }
    if |n| >= 4 {
      assert n[..4] == r[..4];
    }
  }

  // ---------------------------------------------------------------- reading an answer back

  /** Where the parts of a formatted answer sit. */
  lemma {:induction false} AnswerLayout(x: string, y: string)
    ensures var s := FormatAnswer(x, y);
      && |s| == 12 + |x| + |y|
      && s[..4] == CompanyTag && s[4] == ' ' && s[5..5 + |x|] == x && s[5 + |x|] == '\n'
      && s[6 + |x|..11 + |x|] == PhoneTag && s[11 + |x|] == ' ' && s[12 + |x|..] == y
      && s[4..5 + |x|] == " " + x && s[11 + |x|..] == " " + y
  {
  }

  /** The label occurs at position `i`. */
  predicate TagAt(s: string, tag: string, i: nat) {
    i + |tag| <= |s| && s[i..i + |tag|] == tag
  }

  /** The search moves past positions where the label does not occur. */
  lemma {:induction false} MatchSkip(s: string, tag: string, ws: char -> bool, p: nat, k: nat)
    requires p <= k
    requires forall i :: p <= i < k ==> !TagAt(s, tag, i)
    ensures MatchFrom(s, tag, ws, p) == MatchFrom(s, tag, ws, k)
    decreases k - p
  {
    if p < k {
      assert !TagAt(s, tag, p);
      MatchSkip(s, tag, ws, p + 1, k);
    }
  }

  lemma {:induction false} RunStops(t: string, ws: char -> bool, m: nat)
    requires m < |t| && !ws(t[m])
    ensures Run(t, ws) <= m
  {
  }

  lemma {:induction false} RunCovers(t: string, ws: char -> bool, m: nat)
    requires m <= |t| && forall i :: 0 <= i < m ==> ws(t[i])
    ensures Run(t, ws) >= m
  {
  }

  /** The lazy group stops at the first line terminator. */
  lemma {:induction false} LineEndAt(s: string, c: nat, e: nat)
    requires c <= e <= |s|
    requires forall i :: c <= i < e ==> !IsLineTerminator(s[i])
    requires e < |s| ==> IsLineTerminator(s[e])
    ensures LineEnd(s, c) == e
  {
  }

  /** A capture at `c` inside a white-space-led text `" " + v` trims to `v` trimmed. */
  lemma {:induction false} TrimAfterRun(u: string, n: nat, v: string)
    requires u == " " + v && n <= |u| && AllSpace(u[..n])
    ensures Trim(u[n..]) == Trim(v)
  {
    TrimFrom(u, n);
    TrimAfterBlank(v);
  }

  lemma TrimAfterBlank(v: string)
    ensures Trim(" " + v) == Trim(v)
  {
    assert AllSpace(" ");
    TrimLeadingSpace(" ", v);
  }

  /** Dropping leading white space does not change the trimmed form. */
  lemma {:induction false} TrimFrom(u: string, n: nat)
    requires n <= |u| && AllSpace(u[..n])
    ensures Trim(u[n..]) == Trim(u)
  {
    var a, b := u[..n], u[n..];
    assert a + b == u;
    TrimLeadingSpace(a, b);
  }

  /** The white-space class after the label: as written (`[\s　]`), or confined to the line. */
  function WhiteSpace(inline: bool): char -> bool {
    if inline then IsInlineSpace else IsSpace
  }

  lemma {:induction false} RunIsSpace(t: string, inline: bool)
    ensures AllSpace(t[..Run(t, WhiteSpace(inline))])
  {
    var n := Run(t, WhiteSpace(inline));
    forall i | 0 <= i < n ensures IsSpace(t[..n][i]) {
      assert WhiteSpace(inline)(t[i]);
    }
  }

  /** When the label occurs at `p` and the longest white-space run lets the rest match,
      that is the match. */
  lemma {:induction false} MatchHere(s: string, tag: string, ws: char -> bool, p: nat, c: string)
    requires TagAt(s, tag, p)
    requires CaptureAt(s, p + |tag| + Run(s[p + |tag|..], ws)) == Some(c)
    ensures MatchFrom(s, tag, ws, p) == Some(c)
  {
    var q := p + |tag|;
    assert TryWidths(s, q, Run(s[q..], ws)) == Some(c);
  }

  /** The capture from `c` when the line ends at `e`. */
  lemma {:induction false} CaptureTo(s: string, c: nat, e: nat)
    requires c <= e <= |s| && (e == |s| || s[e] == '\n')
    requires forall i :: c <= i < e ==> !IsLineTerminator(s[i])
    ensures CaptureAt(s, c) == Some(s[c..e])
  {
    LineEndAt(s, c, e);
  }

  /** A text that starts with a company line holding `x`: the label is found at the
      start and the value is `x`, provided the white space after the label stops on
      that line. */
  lemma {:induction false} CompanyLineAt(s: string, x: string, inline: bool)
    requires 6 + |x| <= |s| && s[..4] == CompanyTag && s[5 + |x|] == '\n'
    requires s[4..5 + |x|] == " " + x
    requires NoneOf(x, IsLineTerminator)
    requires inline || !AllSpace(x)
    ensures var m := MatchFrom(s, CompanyTag, WhiteSpace(inline), 0);
      m.Some? && Trim(m.value) == Trim(x)
  {
    var ws := WhiteSpace(inline);
    var u := " " + x;
    var t := s[4..];
    var n := CompanyRun(s, x, inline);
    var e := 5 + |x|;
    assert MatchFrom(s, CompanyTag, ws, 0) == Some(u[n..]) by {
      forall i | 4 + n <= i < e ensures !IsLineTerminator(s[i]) {
        assert s[i] == u[i - 4];
      }
      CaptureTo(s, 4 + n, e);
      assert TagAt(s, CompanyTag, 0);
      assert s[4 + n..e] == u[n..];
      MatchHere(s, CompanyTag, ws, 0, s[4 + n..e]);
    }
    assert AllSpace(u[..n]) by {
      RunIsSpace(t, inline);
      assert u[..n] == t[..n];
    }
    TrimAfterRun(u, n, x);
  }

  lemma {:induction false} CompanyRun(s: string, x: string, inline: bool) returns (n: nat)
    requires 6 + |x| <= |s| && s[5 + |x|] == '\n'
    requires s[4..5 + |x|] == " " + x
    requires inline || !AllSpace(x)
    ensures n == Run(s[4..], WhiteSpace(inline)) && n <= 1 + |x|
  {
    var t := s[4..];
    n := Run(t, WhiteSpace(inline));
    if inline {
      assert t[1 + |x|] == '\n';
      RunStops(t, WhiteSpace(inline), 1 + |x|);
    } else {
      var i :| 0 <= i < |x| && !IsSpace(x[i]);
      assert t[1 + i] == x[i];
      RunStops(t, WhiteSpace(inline), 1 + i);
    }
  }

  /** No telephone label starts before position `k` when the text up to the line break
      at `k - 1` is a short head without `電` followed by `x`, and `x` holds no label. */
  lemma {:induction false} NoTagBefore(s: string, x: string, h: nat)
    requires h + |x| < |s| && s[h + |x|] == '\n'
    requires forall i :: 0 <= i < h ==> s[i] != '電'
    requires s[h..h + |x|] == x && !Contains(x, PhoneTag)
    ensures forall i :: 0 <= i <= h + |x| ==> !TagAt(s, PhoneTag, i)
  {
    var nl := h + |x|;
    forall i | 0 <= i <= nl ensures !TagAt(s, PhoneTag, i) {
      if i < h {
        NoTagAtOther(s, i);
      } else if i + 5 <= nl {
        NoTagInside(s, x, h, i);
      } else {
        NoTagAcrossBreak(s, nl, i);
      }
    }
  }

  lemma {:induction false} NoTagAtOther(s: string, i: nat)
    requires i < |s| && s[i] != '電'
    ensures !TagAt(s, PhoneTag, i)
  {
  }

  lemma {:induction false} NoTagInside(s: string, x: string, h: nat, i: nat)
    requires h <= i && i + 5 <= h + |x| <= |s| && s[h..h + |x|] == x && !Contains(x, PhoneTag)
    ensures !TagAt(s, PhoneTag, i)
  {
    assert |PhoneTag| == 5;
    var a, b := s[i..i + 5], x[i - h..][..5];
    forall j | 0 <= j < 5 ensures a[j] == b[j] {
      assert s[i + j] == s[h..h + |x|][i - h + j];
    }
    assert a == b;
    if StartsWith(x[i - h..], PhoneTag) {
      ContainsAt(x, PhoneTag, i - h);
    }
  }

  lemma {:induction false} NoTagAcrossBreak(s: string, nl: nat, i: nat)
    requires i <= nl < |s| && nl < i + 5 && s[nl] == '\n'
    ensures !TagAt(s, PhoneTag, i)
  {
    assert |PhoneTag| == 5;
  }

  /** The telephone label at `k` followed by a line without terminators matches, and the
      capture is the rest of the text after the white-space run. */
  lemma {:induction false} PhoneMatchAt(s: string, y: string, k: nat, ws: char -> bool) returns (n: nat)
    requires k + 5 <= |s| && TagAt(s, PhoneTag, k) && s[k + 5..] == " " + y
    requires NoneOf(y, IsLineTerminator)
    ensures n == Run(s[k + 5..], ws) && k + 5 + n <= |s|
    ensures MatchFrom(s, PhoneTag, ws, k) == Some(s[k + 5 + n..])
  {
    assert |PhoneTag| == 5;
    n := TagMatchAt(s, PhoneTag, y, k, ws);
  }

  /** The same for any label: the capture is the rest of the text after the run. */
  lemma {:induction false} TagMatchAt(s: string, tag: string, y: string, k: nat, ws: char -> bool) returns (n: nat)
    requires TagAt(s, tag, k) && s[k + |tag|..] == " " + y
    requires NoneOf(y, IsLineTerminator)
    ensures n == Run(s[k + |tag|..], ws) && k + |tag| + n <= |s|
    ensures MatchFrom(s, tag, ws, k) == Some(s[k + |tag| + n..])
  {
    var q := k + |tag|;
    n := Run(s[q..], ws);
    RestOneLine(s, q, y);
    CaptureRest(s, q + n);
    MatchHere(s, tag, ws, k, s[q + n..]);
  }

  /** A space and then a text without line terminators, from `q` to the end. */
  lemma {:induction false} RestOneLine(s: string, q: nat, y: string)
    requires q <= |s| && s[q..] == " " + y && NoneOf(y, IsLineTerminator)
    ensures forall i :: q <= i < |s| ==> !IsLineTerminator(s[i])
  {
    forall i | q <= i < |s| ensures !IsLineTerminator(s[i]) {
      assert s[i] == s[q..][i - q] == (" " + y)[i - q];
      if i > q {
        assert (" " + y)[i - q] == y[i - q - 1];
      }
    }
  }

  /** With no line terminator from `c` on, the capture is the rest of the text. */
  lemma {:induction false} CaptureRest(s: string, c: nat)
    requires c <= |s| && forall i :: c <= i < |s| ==> !IsLineTerminator(s[i])
    ensures CaptureAt(s, c) == Some(s[c..])
  {
    CaptureTo(s, c, |s|);
    assert s[c..|s|] == s[c..];
  }

  /** A telephone line holding `y` at position `k`, with no earlier label: the label is
      found there and the value is `y`. */
  lemma {:induction false} PhoneLineAt(s: string, y: string, k: nat, inline: bool)
    requires k + 5 <= |s| && TagAt(s, PhoneTag, k) && s[k + 5..] == " " + y
    requires forall i :: 0 <= i < k ==> !TagAt(s, PhoneTag, i)
    requires NoneOf(y, IsLineTerminator)
    ensures var m := MatchFrom(s, PhoneTag, WhiteSpace(inline), 0);
      m.Some? && Trim(m.value) == Trim(y)
  {
    var ws := WhiteSpace(inline);
    MatchSkip(s, PhoneTag, ws, 0, k);
    var n := PhoneMatchAt(s, y, k, ws);
    assert Trim(s[k + 5 + n..]) == Trim(y) by {
      var t := s[k + 5..];
      assert s[k + 5 + n..] == t[n..];
      RunIsSpace(t, inline);
      TrimAfterRun(t, n, y);
    }
  }

  /** Reading back an answer in the requested format gives the company and telephone
      texts, trimmed, whenever the company text contains no telephone label; as written
      this needs a company text that is not blank. */
  lemma {:induction false} AnswerRoundTrip(inline: bool, x: string, y: string)
    requires NoneOf(x, IsLineTerminator) && NoneOf(y, IsLineTerminator)
    requires !Contains(x, PhoneTag)
    ensures inline || !AllSpace(x) ==> FieldValue(inline, FormatAnswer(x, y), CompanyTag) == Trim(x)
    ensures FieldValue(inline, FormatAnswer(x, y), PhoneTag) == Trim(y)
  {
    if inline || !AllSpace(x) {
      AnswerCompany(inline, x, y);
    }
    AnswerPhone(inline, x, y);
  }

  lemma {:induction false} AnswerCompany(inline: bool, x: string, y: string)
    requires NoneOf(x, IsLineTerminator) && (inline || !AllSpace(x))
    ensures FieldValue(inline, FormatAnswer(x, y), CompanyTag) == Trim(x)
  {
    var s := FormatAnswer(x, y);
    AnswerLayout(x, y);
    CompanyLineAt(s, x, inline);
  }

  lemma {:induction false} AnswerPhone(inline: bool, x: string, y: string)
    requires NoneOf(y, IsLineTerminator) && !Contains(x, PhoneTag)
    ensures FieldValue(inline, FormatAnswer(x, y), PhoneTag) == Trim(y)
  {
    var s := FormatAnswer(x, y);
    var k := 6 + |x|;
    assert |s| == 12 + |x| + |y| && s[..4] == CompanyTag && s[4] == ' '
      && s[5..5 + |x|] == x && s[5 + |x|] == '\n' && s[k..k + 5] == PhoneTag
      && s[k + 5..] == " " + y by {
      AnswerLayout(x, y);
    }
    HeadNoMark(s);
    NoTagBefore(s, x, 5);
    assert |PhoneTag| == 5;
    PhoneLineAt(s, y, k, inline);
  }

  lemma {:induction false} HeadNoMark(s: string)
    requires |s| >= 5 && s[..4] == CompanyTag && s[4] == ' '
    ensures forall i :: 0 <= i < 5 ==> s[i] != '電'
  {
    forall i | 0 <= i < 4 ensures s[i] != '電' {
      assert s[i] == CompanyTag[i];
    }
  }

  /** With the label expression as written, a blank company line lets the white space
      after `会社名:` run over the line break, and the whole telephone line is captured
      as the company value. */
  lemma {:induction false} BlankCompanyCapturesPhoneLine(x: string, y: string)
    requires AllSpace(x) && NoneOf(x, IsLineTerminator) && NoneOf(y, IsLineTerminator)
    ensures ExtractLabelAsWritten(FormatAnswer(x, y), CompanyTag) == Some(PhoneTag + " " + y)
  {
    var s := FormatAnswer(x, y);
    AnswerLayout(x, y);
    BlankLineAt(s, x, PhoneTag + " " + y);
  }

  lemma {:induction false} BlankLineAt(s: string, x: string, rest: string)
    requires 6 + |x| <= |s| && s[..4] == CompanyTag && s[5 + |x|] == '\n'
    requires s[4..5 + |x|] == " " + x && s[6 + |x|..] == rest
    requires AllSpace(x) && |rest| > 0 && !IsSpace(rest[0]) && NoneOf(rest, IsLineTerminator)
    ensures MatchFrom(s, CompanyTag, IsSpace, 0) == Some(rest)
  {
    assert |CompanyTag| == 4;
    var k := 6 + |x|;
    assert Run(s[4..], IsSpace) == k - 4 by {
      var t := s[4..];
      assert t[..k - 4] == " " + x + "\n";
      assert t[k - 4] == rest[0];
      RunCovers(t, IsSpace, k - 4);
      RunStops(t, IsSpace, k - 4);
    }
    assert CaptureAt(s, k) == Some(rest) by {
      forall i | k <= i < |s| ensures !IsLineTerminator(s[i]) {
        assert s[i] == rest[i - k];
      }
      CaptureTo(s, k, |s|);
      assert s[k..|s|] == rest;
    }
    assert TagAt(s, CompanyTag, 0);
    MatchHere(s, CompanyTag, IsSpace, 0, rest);
  }

  // ---------------------------------------------------------------- the parsed result

  /** A post-processed telephone value never looks like the company label, so the two
      company-label checks on the telephone value never blank it. */
  lemma {:induction false} PhoneLabelChecksDead(v: string)
    requires forall i :: 0 <= i < |v| ==> IsPhoneOutChar(v[i])
    ensures !IsLabelOnly(v, "会社名") && !StartsWithLabel(v, "会社名")
  {
    TrimNotLabel(v);
    StartNotLabel(v);
  }

  /** A trimmed telephone value is empty or starts with a digit, a hyphen or a comma. */
  lemma TrimNotLabel(v: string)
    requires forall i :: 0 <= i < |v| ==> IsPhoneOutChar(v[i])
    ensures !IsLabelOnly(v, "会社名")
  {
    var i, j := TrimIsSlice(v);
    assert |Trim(v)| > 0 ==> Trim(v)[0] == v[i];
    assert "会社名"[0] == '会' && ("会社名" + ":")[0] == '会';
  }

  /** Nor does it start with the label after its leading white space. */
  lemma StartNotLabel(v: string)
    requires forall i :: 0 <= i < |v| ==> IsPhoneOutChar(v[i])
    ensures !StartsWithLabel(v, "会社名")
  {
    var n := LeadingSpaces(v);
    assert n < |v| ==> v[n..][0] == v[n];
  }

  /** Parsing an answer in the requested format: the telephone value is the telephone
      text post-processed; the company value is the company text post-processed when it
      is a single name that is not blank. A blank company line gives an empty company
      value when the label's white space stays on its line, and as written gives the
      whole telephone line instead. */
  lemma {:induction false} ParseAnswer(inline: bool, x: string, y: string)
    requires NoneOf(x, IsLineTerminator) && NoneOf(y, IsLineTerminator)
    requires !Contains(x, PhoneTag)
    ensures ParseMultiField(inline, FormatAnswer(x, y)).phone == PostProcess(Trim(y), PhoneNumber)
    ensures var c := PostProcess(Trim(x), PayeeName);
      (inline || !AllSpace(x)) && NoneOf(c, IsListSeparator) && !IsLabelOnly(c, "電話番号") ==>
        ParseMultiField(inline, FormatAnswer(x, y)).payee == c
    ensures inline && AllSpace(x) ==> ParseMultiField(inline, FormatAnswer(x, y)).payee == ""
    ensures !inline && AllSpace(x) ==> FieldValue(inline, FormatAnswer(x, y), CompanyTag) == Trim(PhoneTag + " " + y)
  {
    AnswerRoundTrip(inline, x, y);
    if AllSpace(x) {
      TrimAllSpace(x);
      if !inline {
        BlankCompanyCapturesPhoneLine(x, y);
      }
    }
  }

  // ---------------------------------------------------------------- getPromptForModel

  /** The model names the prompt table distinguishes; every other name gets the default prompts. */
  const Flash25: string := "gemini-2.5-flash"
  const Flash20Lite: string := "gemini-2.0-flash-lite"
  const Flash15: string := "gemini-1.5-flash"
  const Flash20: string := "gemini-2.0-flash"

  const PhonePromptDetailed: string :=
    "画像に含まれる電話番号を正確に抽出してください。以下の要件に従ってください：\n"
    + "- 数字、ハイフン、カンマのみを返してください（例: 03-1234-5678）\n"
    + "- 複数の電話番号があればカンマで区切って全て抽出してください\n"
    + "- Tで始まる13桁の事業者番号は無視してください\n"
    + "- 国際的な標準形式（+81）も適切に処理してください\n"
    + "- 余計な説明や文字は不要です"

  const PhonePromptLines: string :=
    "画像内の電話番号を正確に抽出してください。数字、ハイフン、カンマのみを返してください。例: 03-1234-5678。\n"
    + "複数の電話番号があれば、カンマで区切って全て抽出してください。\n"
    + "余計な説明や文字は不要です。Tで始まる13桁の事業者番号は無視してください。\n"
    + "国際的な標準形式（+81）も適切に処理してください。"

  const PhonePromptShort: string :=
    "画像に含まれる電話番号のみを正確に抽出し、複数候補があるときはカンマで区切り、数字、ハイフン、カンマのみを返してください。"
    + "例: 03-1234-5678。それ以外の文字や説明は不要です。Tで始まる13桁の事業者番号は無視してください。"

  /** The opening of the payee prompt; `kana` adds the request to tell the scripts apart. */
  function PayeeIntro(kana: bool): string {
    "画像から以下を抽出してください:\n1. 会社名: 法人格(株式会社など)と支店名を除いた正確な名称。"
    + (if kana then "ひらがな・カタカナ・漢字などを正確に区別し、" else "")
    + "複数ある場合はカンマ区切り。\n2. 電話番号: ハイフン含む完全な番号。複数ある場合はカンマ区切り。T始まりの13桁事業者番号は除外。\n\n"
  }

  /** The answer format block of the payee prompt. */
  function FormatBlock(): string {
    "形式:\n" + FormatAnswer(Placeholder, Placeholder) + "\n\n"
  }

  const ResolutionSentence: string := "画像の解像度が低くても最大限正確に読み取ってください。"
  const BlankSentence: string := "検出できない項目は空欄にしてください。"

  /** The closing sentences of the payee prompt. */
  function PayeeClosing(resolution: bool): string {
    (if resolution then ResolutionSentence else "") + BlankSentence
  }

  /** The payee prompt, from its variable parts. */
  function PayeePrompt(kana: bool, resolution: bool): string {
    PayeeIntro(kana) + FormatBlock() + PayeeClosing(resolution)
  }

  /** `language === 'ja' ? '日本語' : language === 'en' ? '英語' : '複数言語'`. */
  function LanguageName(language: string): string {
    if language == "ja" then "日本語" else if language == "en" then "英語" else "複数言語"
  }

  const TextHead: string := "以下の画像に含まれるテキストを抽出してください。言語は"

  function TextIntro(language: string): string {
    TextHead + LanguageName(language) + "です。\n"
  }

  const AccurateLong: string :=
    "文字の形や特徴を細かく観察し、文脈を考慮して正確に認識してください。特に小さな文字や低コントラストの文字も注意深く認識してください。"
    + "似た文字（例：「り」と「リ」、「0」と「O」、「l」と「1」など）は文脈から判断して区別してください。"

  const AccurateLines: string :=
    "文字の形や特徴を細かく観察し、文脈を考慮して正確に認識してください。特に小さな文字や低コントラストの文字も注意深く認識してください。\n"
    + "似た文字（例：「り」と「リ」、「0」と「O」、「l」と「1」など）は文脈から判断して区別してください。\n"

  const AccurateShort: string :=
    "文字の形や特徴を細かく観察し、文脈を考慮して正確に認識してください。特に似た文字（例：「り」と「リ」、「0」と「O」）を区別してください。"

  const LayoutSentence: string := "レイアウトは無視して純粋なテキストのみを出力してください。"
  const PlainSentence: string := "純粋に認識されたテキストのみを出力し、余計な説明は不要です。"

  /** The body of a plain-text prompt whose accuracy paragraph depends on the mode. */
  function ModeBody(mode: string, accurate: string, closing: string): string {
    (if mode == "accurate" then accurate else "") + "\n" + closing
  }

  /** `getPromptForModel(model, language, mode, fieldType)`: whatever the model,
      language and mode, a payee prompt asks for the two-line answer whose labels
      the parser searches for, and a plain-text prompt starts by naming the
      configured language. */
  function GetPromptForModel(model: string, language: string, mode: string, field: FieldType): (p: string)
    ensures field == PayeeName ==> Contains(p, FormatAnswer(Placeholder, Placeholder))
    ensures field != PayeeName && field != PhoneNumber ==> StartsWith(p, TextIntro(language))
  {
    if model == Flash25 then
      match field
      case PhoneNumber => PhonePromptDetailed
      case PayeeName => PayeePromptHas(true, true); PayeePrompt(true, true)
      case _ => IntroStarts(language, ModeBody(mode, AccurateLong, LayoutSentence))
    else if model == Flash20Lite || model == Flash15 then
      match field
      case PhoneNumber => PhonePromptLines
      case PayeeName => PayeePromptHas(true, true); PayeePrompt(true, true)
      case _ => IntroStarts(language, AccurateLines + LayoutSentence)
    else if model == Flash20 then
      match field
      case PhoneNumber => PhonePromptShort
      case PayeeName => PayeePromptHas(true, false); PayeePrompt(true, false)
      case _ => IntroStarts(language, ModeBody(mode, AccurateShort, LayoutSentence))
    else
      match field
      case PhoneNumber => PhonePromptShort
      case PayeeName => PayeePromptHas(false, false); PayeePrompt(false, false)
      case _ => IntroStarts(language, ModeBody(mode, AccurateShort, PlainSentence))
  }

  /** A plain-text prompt: the language introduction followed by `body`. */
  function IntroStarts(language: string, body: string): (p: string)
    ensures StartsWith(p, TextIntro(language)) && p[|TextIntro(language)|..] == body
  {
    TextIntro(language) + body
  }

  /** A string contains the middle part of a block inside it. */
  lemma {:induction false} ContainsInBlock(a: string, h: string, f: string, g: string, t: string)
    ensures Contains(a + (h + f + g) + t, f)
  {
    var s := a + (h + f + g) + t;
    assert s[|a| + |h|..] == f + (g + t);
    ContainsAt(s, f, |a| + |h|);
  }

  lemma {:induction false} ContainsSecond(a: string, b: string, c: string, d: string)
    ensures Contains(a + b + c + d, b) && StartsWith(a + b + c + d, a + b + c)
  {
    var s := a + b + c + d;
    assert s[|a|..] == b + (c + d);
    ContainsAt(s, b, |a|);
    assert s[..|a + b + c|] == a + b + c;
  }

  /** Every payee prompt holds the requested answer format. */
  lemma {:induction false} PayeePromptHas(kana: bool, resolution: bool)
    ensures Contains(PayeePrompt(kana, resolution), FormatAnswer(Placeholder, Placeholder))
  {
    ContainsInBlock(PayeeIntro(kana), "形式:\n", FormatAnswer(Placeholder, Placeholder), "\n\n", PayeeClosing(resolution));
  }

  /** The telephone and payee prompts depend on the model only, not on the language or mode. */
  lemma {:induction false} FieldPromptsIgnoreSettings(model: string, l1: string, m1: string, l2: string, m2: string, field: FieldType)
    requires field == PayeeName || field == PhoneNumber
    ensures GetPromptForModel(model, l1, m1, field) == GetPromptForModel(model, l2, m2, field)
  {
  }

  /** The plain-text prompts start by naming the configured language: Japanese, English,
      or several. */
  lemma {:induction false} TextPromptNamesLanguage(model: string, language: string, mode: string, field: FieldType)
    requires field != PayeeName && field != PhoneNumber
    ensures StartsWith(GetPromptForModel(model, language, mode, field), TextIntro(language))
    ensures Contains(GetPromptForModel(model, language, mode, field), LanguageName(language))
  {
    var p := GetPromptForModel(model, language, mode, field);
    var body := p[|TextIntro(language)|..];
    assert p == TextIntro(language) + body;
    ContainsSecond(TextHead, LanguageName(language), "です。\n", body);
  }
  /** The accurate mode lengthens the plain-text prompt exactly for the models whose
      prompt reads the mode; the 2.0 Flash Lite and 1.5 Flash prompts always carry it. */
  lemma {:induction false} AccurateModeMatters(model: string, language: string, mode: string, field: FieldType)
    requires field != PayeeName && field != PhoneNumber && mode != "accurate"
    ensures |GetPromptForModel(model, language, "accurate", field)| > |GetPromptForModel(model, language, mode, field)|
      <==> model != Flash20Lite && model != Flash15
    ensures model == Flash20Lite || model == Flash15
      ==> GetPromptForModel(model, language, "accurate", field) == GetPromptForModel(model, language, mode, field)
  {
  }
}
