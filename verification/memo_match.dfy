/** The operator-memo helpers of the number-entry screen: the suggestion list
    narrowed by what has been typed, and the explanation bubble listing the memo
    keywords found in the memo text. */
module MemoMatch {
  import opened JsString

  /** `suggestions`; the memo meanings use the same seven keywords in the same order. */
  const Suggestions: seq<string> := ["金額が合わない", "税額合わない", "差額あり", "差額", "対象額なし", "月8％", "非課税複数"]

  /** A substring of a substring is a substring. */
  lemma {:induction false} ContainsTransitive(s: string, mid: string, w: string)
    requires Contains(s, mid) && Contains(mid, w)
    ensures Contains(s, w)
  {
    var i := ContainsWitness(s, mid);
    var j := ContainsWitness(mid, w);
    var m := s[i..i + |mid|];
    assert m == mid;
    forall k | 0 <= k < |w| ensures s[i + j..][..|w|][k] == w[k] {
      assert w[k] == m[j + k] == s[i + j + k];
    }
    assert s[i + j..][..|w|] == w;
    ContainsAt(s, w, i + j);
  }

  /** A string contains every prefix of the strings it contains. */
  lemma {:induction false} ContainsPrefix(s: string, a: string, b: string)
    requires Contains(s, a + b)
    ensures Contains(s, a)
  {
    assert (a + b)[..|a|] == a;
    ContainsAt(a + b, a, 0);
    ContainsTransitive(s, a + b, a);
  }

  /** Whether a suggestion matches the typed text, ignoring case. */
  predicate MatchesTyped(typed: string, suggestion: string) {
    Contains(ToLower(suggestion), ToLower(typed))
  }

  /** `updateSuggestions`' filter: everything for empty input, otherwise the
      suggestions containing the typed text, ignoring case, in list order. */
  function FilterSuggestions(typed: string, suggestions: seq<string>): (r: seq<string>)
    ensures typed == "" ==> r == suggestions
    ensures typed != "" ==> forall x :: x in r <==> x in suggestions && MatchesTyped(typed, x)
  {
    if ToLower(typed) == "" then suggestions
    else Select(suggestions, x => MatchesTyped(typed, x))
  }

  /** The filtered list keeps the suggestions' order: the matches among earlier
      suggestions come before those among later ones. */
  lemma {:induction false} FilterKeepsOrder(typed: string, a: seq<string>, b: seq<string>)
    ensures FilterSuggestions(typed, a + b) == FilterSuggestions(typed, a) + FilterSuggestions(typed, b)
  {
    if ToLower(typed) != "" {
      SelectAppend(a, b, x => MatchesTyped(typed, x));
    }
  }

  /** Typing a suggestion in full keeps it in the list. */
  lemma {:induction false} WholeSuggestionKept(s: string, suggestions: seq<string>)
    requires s in suggestions
    ensures s in FilterSuggestions(s, suggestions)
  {
    ContainsSelf(ToLower(s));
  }

  /** Typing more never brings a suggestion back: the list for a longer input is
      part of the list for its prefix. */
  lemma {:induction false} TypingNarrows(typed: string, more: string, suggestions: seq<string>)
    ensures forall x :: x in FilterSuggestions(typed + more, suggestions) ==> x in FilterSuggestions(typed, suggestions)
  {
    ToLowerConcat(typed, more);
    forall x | x in FilterSuggestions(typed + more, suggestions)
      ensures x in FilterSuggestions(typed, suggestions)
    {
      if typed != "" {
        assert typed + more != "";
        ContainsPrefix(ToLower(x), ToLower(typed), ToLower(more));
      }
    }
  }

  /** `findMatches(text)`: the keywords the memo text contains, in keyword order. */
  function FindMatches(text: string, keywords: seq<string>): (r: seq<string>)
    ensures text == "" ==> r == []
    ensures text != "" ==> forall k :: k in r <==> k in keywords && Contains(text, k)
  {
    if text == "" then [] else Select(keywords, k => Contains(text, k))
  }

  /** The matched keywords keep the keyword list's order. */
  lemma {:induction false} MatchesKeepOrder(text: string, a: seq<string>, b: seq<string>)
    ensures FindMatches(text, a + b) == FindMatches(text, a) + FindMatches(text, b)
  {
    if text != "" {
      SelectAppend(a, b, k => Contains(text, k));
    }
  }

  /** A memo naming a keyword that contains another keyword matches both: "差額あり"
      always also explains "差額". */
  lemma {:induction false} LongerKeywordMatchesShorter(text: string, keywords: seq<string>, long: string, short: string)
    requires long in keywords && short in keywords && long != "" && Contains(long, short)
    requires Contains(text, long)
    ensures long in FindMatches(text, keywords) && short in FindMatches(text, keywords)
  {
    var i := ContainsWitness(text, long);
    assert |text| >= |long| > 0;
    ContainsTransitive(text, long, short);
  }

  /** The overlapping pair in the memo keywords. */
  lemma {:induction false} DifferenceKeywordsOverlap()
    ensures "差額あり" in Suggestions && "差額" in Suggestions
    ensures Contains("差額あり", "差額")
  {
    assert Suggestions[2] == "差額あり" && Suggestions[3] == "差額";
    var long := "差額あり";
    assert long[0..][..2] == "差額";
    ContainsAt(long, "差額", 0);
  }

  /** What the explanation bubble shows. */
  datatype Bubble = Hidden | NoKeywords | Explained(keywords: seq<string>)

  /** `updateMemoExplanation`: the memo text is trimmed, then matched. */
  function MemoExplanation(memo: string, keywords: seq<string>): (b: Bubble)
    ensures b.Hidden? <==> Trim(memo) == ""
    ensures b.Explained? ==> |b.keywords| > 0 && forall k :: k in b.keywords <==> k in keywords && Contains(Trim(memo), k)
    ensures b.NoKeywords? ==> forall k :: k in keywords ==> !Contains(Trim(memo), k)
  {
    var text := Trim(memo);
    var found := FindMatches(text, keywords);
    if |found| > 0 then Explained(found)
    else if text != "" then
      assert forall k :: k in keywords && Contains(text, k) ==> k in found;
      NoKeywords
    else Hidden
  }
}
