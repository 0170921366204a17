/** The JavaScript string operations the scripts rely on (`trim`, `includes`,
    `split`, `join`, `replace` with simple character classes) and the array
    operations used on lists of strings (`filter`, `map`, `[...new Set(xs)]`),
    written over `seq<char>` with the JavaScript semantics spelled out. */
module JsString {

  /** The regular-expression class `\d`: ASCII digits only (full-width digits are not in it). */
  predicate IsDigit(c: char) { '0' <= c <= '9' }

  /** The regular-expression class `\s`; `String.prototype.trim` removes exactly these
      characters (white space and line terminators, including U+3000 and U+FEFF). */
  predicate IsSpace(c: char) {
    || c == '\t' || c == '\n' || c == '\U{B}' || c == '\U{C}' || c == '\r' || c == ' '
    || c == '\U{A0}' || c == '\U{1680}' || ('\U{2000}' <= c <= '\U{200A}')
    || c == '\U{2028}' || c == '\U{2029}' || c == '\U{202F}' || c == '\U{205F}'
    || c == '\U{3000}' || c == '\U{FEFF}'
  }

  /** The characters the regular-expression `.` does not match. */
  predicate IsLineTerminator(c: char) {
    c == '\n' || c == '\r' || c == '\U{2028}' || c == '\U{2029}'
  }

  predicate IsHyphen(c: char) { c == '-' }
  predicate IsNotHyphen(c: char) { c != '-' }
  predicate IsComma(c: char) { c == ',' }

  /** The separator class `[,、]` used to split candidate lists. */
  predicate IsListSeparator(c: char) { c == ',' || c == '、' }

  predicate AllDigits(s: string) { forall i :: 0 <= i < |s| ==> IsDigit(s[i]) }
  predicate AllSpace(s: string) { forall i :: 0 <= i < |s| ==> IsSpace(s[i]) }
  predicate NoneOf(s: string, p: char -> bool) { forall i :: 0 <= i < |s| ==> !p(s[i]) }

  /** `s.replace(/[^…]/g, '')`: the characters of `s` that satisfy `keep`, in order. */
  function Filter(s: string, keep: char -> bool): (r: string)
    ensures |r| <= |s|
    ensures forall i :: 0 <= i < |r| ==> keep(r[i])
    ensures (forall i :: 0 <= i < |s| ==> keep(s[i])) ==> r == s
  {
    if |s| == 0 then []
    else (if keep(s[0]) then [s[0]] else []) + Filter(s[1..], keep)
  }

  lemma {:induction false} FilterConcat(a: string, b: string, keep: char -> bool)
    ensures Filter(a + b, keep) == Filter(a, keep) + Filter(b, keep)
  {
    if |a| == 0 {
      assert a + b == b;
    } else {
      assert (a + b)[1..] == a[1..] + b;
      FilterConcat(a[1..], b, keep);
    }
  }

  /** `s.startsWith(p)`. */
  predicate StartsWith(s: string, p: string) { |p| <= |s| && s[..|p|] == p }

  /** `s.endsWith(p)`. */
  predicate EndsWith(s: string, p: string) { |p| <= |s| && s[|s| - |p|..] == p }

  /** `s.includes(sub)`. */
  predicate Contains(s: string, sub: string)
    decreases |s|
  {
    StartsWith(s, sub) || (|s| > 0 && Contains(s[1..], sub))
  }

  lemma {:induction false} ContainsAt(s: string, sub: string, i: nat)
    requires i <= |s| && StartsWith(s[i..], sub)
    ensures Contains(s, sub)
    decreases i
  {
    if i > 0 {
      assert s[1..][i - 1..] == s[i..];
      ContainsAt(s[1..], sub, i - 1);
    }
  }

  lemma {:induction false} ContainsWitness(s: string, sub: string) returns (i: nat)
    requires Contains(s, sub)
    ensures i + |sub| <= |s| && s[i..i + |sub|] == sub
    decreases |s|
  {
    if StartsWith(s, sub) {
      i := 0;
    } else {
      var j := ContainsWitness(s[1..], sub);
      i := j + 1;
      assert s[1..][j..j + |sub|] == s[i..i + |sub|];
    }
  }

  /** A string contains a character iff the one-character string is a substring. */
  lemma {:induction false} ContainsChar(s: string, c: char)
    ensures Contains(s, [c]) <==> c in s
  {
    if c in s {
      var i :| 0 <= i < |s| && s[i] == c;
      assert s[i..][..1] == [c];
      ContainsAt(s, [c], i);
    }
    if Contains(s, [c]) {
      var i := ContainsWitness(s, [c]);
      assert s[i] == c;
    }
  }

  /** A word with a character that `s` lacks is not a substring of `s`. */
  lemma {:induction false} NotContainsChar(s: string, w: string, k: nat)
    requires k < |w| && w[k] !in s
    ensures !Contains(s, w)
    decreases |s|
  {
    if |s| > 0 {
      NotContainsChar(s[1..], w, k);
    }
  }

  lemma {:induction false} ContainsSelf(s: string)
    ensures Contains(s, s)
  {
    assert s[..|s|] == s;
  }

  /** A substring of the tail is a substring of the whole. */
  lemma {:induction false} ContainsAppended(a: string, b: string, w: string)
    requires Contains(b, w)
    ensures Contains(a + b, w)
  {
    var i := ContainsWitness(b, w);
    assert (a + b)[|a| + i..][..|w|] == b[i..i + |w|];
    ContainsAt(a + b, w, |a| + i);
  }

  /** A word whose first character does not occur in `a` can only be found in `a + b`
      by finding it in `b`. */
  lemma {:induction false} ContainsAfterPrefix(a: string, b: string, w: string)
    requires |w| > 0 && w[0] !in a
    ensures Contains(a + b, w) <==> Contains(b, w)
  {
    if Contains(a + b, w) {
      var i := ContainsWitness(a + b, w);
      assert (a + b)[i] == w[0];
      assert b[i - |a|..][..|w|] == (a + b)[i..i + |w|];
      ContainsAt(b, w, i - |a|);
    }
    if Contains(b, w) {
      ContainsAppended(a, b, w);
    }
  }

  /** Number of leading characters of `s` that `trim` removes. */
  function LeadingSpaces(s: string): (n: nat)
    ensures n <= |s| && AllSpace(s[..n])
    ensures n < |s| ==> !IsSpace(s[n])
  {
    if |s| > 0 && IsSpace(s[0]) then 1 + LeadingSpaces(s[1..]) else 0
  }

  /** Number of trailing characters of `s` that `trim` removes. */
  function TrailingSpaces(s: string): (n: nat)
    ensures n <= |s| && AllSpace(s[|s| - n..])
    ensures n < |s| ==> !IsSpace(s[|s| - n - 1])
  {
    if |s| > 0 && IsSpace(s[|s| - 1]) then 1 + TrailingSpaces(s[..|s| - 1]) else 0
  }

  /** The slice `Trim` returns starts and ends with a non-space, and is the whole string when that already does. */
  lemma TrimShape(s: string)
    ensures var a := LeadingSpaces(s); var t := s[a..]; var b := TrailingSpaces(t); var r := t[..|t| - b];
      (|r| == 0 || (!IsSpace(r[0]) && !IsSpace(r[|r| - 1])))
      && ((|s| == 0 || (!IsSpace(s[0]) && !IsSpace(s[|s| - 1]))) ==> r == s)
  {
    var a := LeadingSpaces(s);
    var t := s[a..];
    var b := TrailingSpaces(t);
    var r := t[..|t| - b];
    assert |r| > 0 ==> r[0] == t[0] == s[a] && r[|r| - 1] == t[|t| - b - 1];
    assert |s| > 0 && !IsSpace(s[0]) ==> a == 0 && t == s;
    assert |s| > 0 && !IsSpace(s[0]) && !IsSpace(s[|s| - 1]) ==> b == 0;
  }

  /** `String.prototype.trim`. */
  function Trim(s: string): (r: string)
    ensures |r| == 0 || (!IsSpace(r[0]) && !IsSpace(r[|r| - 1]))
    ensures |r| <= |s|
    ensures (|s| == 0 || (!IsSpace(s[0]) && !IsSpace(s[|s| - 1]))) ==> r == s
    ensures (forall i :: 0 <= i < |s| ==> !IsSpace(s[i])) ==> r == s
  {
    var t := s[LeadingSpaces(s)..];
    var r := t[..|t| - TrailingSpaces(t)];
    TrimShape(s);
    r
  }


  /** Every character of the trimmed string comes from the original, in order. */
  lemma {:induction false} TrimIsSlice(s: string) returns (i: nat, j: nat)
    ensures i <= j <= |s| && Trim(s) == s[i..j]
    ensures AllSpace(s[..i]) && AllSpace(s[j..])
  {
    var a := LeadingSpaces(s);
    var t := s[a..];
    var b := TrailingSpaces(t);
    i, j := a, |s| - b;
    assert Trim(s) == s[i..j] by {
      assert t[..|t| - b] == s[a..|s| - b];
    }
    assert AllSpace(s[j..]) by {
      assert s[j..] == t[|t| - b..];
    }
  }

  lemma {:induction false} LeadingSpacesConcat(a: string, b: string)
    requires AllSpace(a)
    ensures LeadingSpaces(a + b) == |a| + LeadingSpaces(b)
  {
    if |a| > 0 {
      assert (a + b)[1..] == a[1..] + b;
      LeadingSpacesConcat(a[1..], b);
    } else {
      assert a + b == b;
    }
  }

  /** White space in front of a string does not change its trimmed form. */
  lemma {:induction false} TrimLeadingSpace(a: string, b: string)
    requires AllSpace(a)
    ensures Trim(a + b) == Trim(b)
  {
    LeadingSpacesConcat(a, b);
    assert (a + b)[|a| + LeadingSpaces(b)..] == b[LeadingSpaces(b)..];
  }

  /** Trimming keeps a property that no character of the original has. */
  lemma {:induction false} TrimNoneOf(s: string, p: char -> bool)
    requires NoneOf(s, p)
    ensures NoneOf(Trim(s), p)
  {
    var i, j := TrimIsSlice(s);
    assert forall k :: 0 <= k < j - i ==> Trim(s)[k] == s[i + k];
  }

  /** Trimming adds no character. */
  lemma {:induction false} TrimKeepsChars(s: string)
    ensures forall c :: c in Trim(s) ==> c in s
  {
    var i, j := TrimIsSlice(s);
    assert forall k :: 0 <= k < j - i ==> Trim(s)[k] == s[i + k];
  }

  /** A string of white space trims to nothing. */
  lemma {:induction false} TrimAllSpace(s: string)
    requires AllSpace(s)
    ensures Trim(s) == []
  {
    var i, j := TrimIsSlice(s);
  }

  /** White space after a string does not change its trimmed form. */
  lemma {:induction false} TrimTrailingSpace(x: string, c: char)
    requires IsSpace(c)
    ensures Trim(x + [c]) == Trim(x)
  {
    if AllSpace(x) {
      TrimAllSpace(x);
      TrimAllSpace(x + [c]);
    } else {
      TrimTrailingSpaceAfterText(x, c);
    }
  }

  lemma {:induction false} TrimTrailingSpaceAfterText(x: string, c: char)
    requires IsSpace(c) && !AllSpace(x)
    ensures Trim(x + [c]) == Trim(x)
  {
    var s := x + [c];
    var l := LeadingSpaces(x);
    LeadingSpacesBelow(x);
    assert LeadingSpaces(s) == l by {
      assert s[..l + 1] == x[..l + 1];
      LeadingSpacesFrom(s, x, l);
    }
    var u := x[l..];
    assert s[l..] == u + [c];
    TrailingSpacesSnoc(u, c);
    var b := TrailingSpaces(u);
    assert (u + [c])[..|u| + 1 - (1 + b)] == u[..|u| - b];
  }

  /** Text that is not all white space has its first non-space inside it. */
  lemma {:induction false} LeadingSpacesBelow(x: string)
    requires !AllSpace(x)
    ensures LeadingSpaces(x) < |x|
  {
    assert x[..|x|] == x;
  }

  /** A white-space character appended at the end adds one trailing space. */
  lemma {:induction false} TrailingSpacesSnoc(u: string, c: char)
    requires IsSpace(c)
    ensures TrailingSpaces(u + [c]) == 1 + TrailingSpaces(u)
  {
    assert (u + [c])[..|u|] == u;
  }

  /** Two strings that agree up to the first non-space of the first have the same
      number of leading spaces. */
  lemma {:induction false} LeadingSpacesFrom(s: string, x: string, l: nat)
    requires l == LeadingSpaces(x) < |x| && l < |s| && s[..l + 1] == x[..l + 1]
    ensures LeadingSpaces(s) == l
  {
    if l > 0 {
      assert s[0] == x[0];
      assert s[1..][..l] == x[1..][..l];
      LeadingSpacesFrom(s[1..], x[1..], l - 1);
    } else {
      assert s[0] == x[0];
    }
  }

  lemma {:induction false} TrimIdempotent(s: string)
    ensures Trim(Trim(s)) == Trim(s)
  {
  }

  /** `xs.map(x => x.trim())`. */
  function TrimEach(xs: seq<string>): (r: seq<string>)
    ensures |r| == |xs|
    ensures forall k :: 0 <= k < |xs| ==> r[k] == Trim(xs[k])
  {
    if |xs| == 0 then [] else [Trim(xs[0])] + TrimEach(xs[1..])
  }

  /** `s.split(/[…]/)`: the pieces between separator characters, as many as there
      are separators plus one. */
  function Split(s: string, isSep: char -> bool): (r: seq<string>)
    ensures |r| >= 1
    ensures forall k :: 0 <= k < |r| ==> NoneOf(r[k], isSep)
    ensures |r| == 1 <==> NoneOf(s, isSep)
  {
    if |s| == 0 then [[]]
    else if isSep(s[0]) then [[]] + Split(s[1..], isSep)
    else
      var t := Split(s[1..], isSep);
      [[s[0]] + t[0]] + t[1..]
  }

  /** `parts.join(sep)`. */
  function Join(parts: seq<string>, sep: string): string {
    if |parts| == 0 then []
    else if |parts| == 1 then parts[0]
    else parts[0] + sep + Join(parts[1..], sep)
  }

  /** A join starts with its first piece. */
  lemma {:induction false} JoinStarts(parts: seq<string>, sep: string)
    requires |parts| >= 1
    ensures |parts[0]| <= |Join(parts, sep)| && Join(parts, sep)[..|parts[0]|] == parts[0]
  {
    if |parts| > 1 {
      assert Join(parts, sep) == parts[0] + (sep + Join(parts[1..], sep));
    }
  }

  /** Every character of a join comes from a piece or from the separator. */
  lemma {:induction false} JoinChars(parts: seq<string>, sep: string, p: char -> bool)
    requires forall k, i :: 0 <= k < |parts| && 0 <= i < |parts[k]| ==> p(parts[k][i])
    requires forall i :: 0 <= i < |sep| ==> p(sep[i])
    ensures forall i :: 0 <= i < |Join(parts, sep)| ==> p(Join(parts, sep)[i])
  {
    if |parts| > 1 {
      JoinChars(parts[1..], sep, p);
      var r := Join(parts, sep);
      var t := Join(parts[1..], sep);
      assert r == parts[0] + sep + t;
      forall i | 0 <= i < |r| ensures p(r[i]) {
        if i < |parts[0]| {
          assert r[i] == parts[0][i];
        } else if i < |parts[0]| + |sep| {
          assert r[i] == sep[i - |parts[0]|];
        } else {
          assert r[i] == t[i - |parts[0]| - |sep|];
        }
      }
    }
  }

  /** Splitting on two separator predicates that agree on every character of `s` gives the same pieces. */
  lemma {:induction false} SplitAgrees(s: string, p: char -> bool, q: char -> bool)
    requires forall i :: 0 <= i < |s| ==> p(s[i]) == q(s[i])
    ensures Split(s, p) == Split(s, q)
  {
    if |s| > 0 {
      SplitAgrees(s[1..], p, q);
    }
  }

  /** Joining pieces that contain no separator with a one-character separator and
      splitting on it gives the pieces back. */
  lemma {:induction false} SplitJoinOn(parts: seq<string>, sep: char, isSep: char -> bool)
    requires |parts| >= 1 && isSep(sep)
    requires forall k :: 0 <= k < |parts| ==> NoneOf(parts[k], isSep)
    ensures Split(Join(parts, [sep]), isSep) == parts
    decreases |parts|, |parts[0]|
  {
    var s := Join(parts, [sep]);
    if |parts| == 1 {
      SplitNoSeparator(parts[0], isSep);
    } else {
      if |parts[0]| == 0 {
        assert s == [sep] + Join(parts[1..], [sep]);
        assert s[1..] == Join(parts[1..], [sep]);
        SplitJoinOn(parts[1..], sep, isSep);
        assert parts == [[]] + parts[1..];
      } else {
        var p0 := parts[0][1..];
        var rest := [p0] + parts[1..];
        assert rest[1..] == parts[1..];
        assert s == [parts[0][0]] + Join(rest, [sep]);
        assert s[1..] == Join(rest, [sep]);
        SplitJoinOn(rest, sep, isSep);
        assert parts[0] == [parts[0][0]] + p0;
        assert parts == [[parts[0][0]] + rest[0]] + rest[1..];
      }
    }
  }

  /** Joining pieces that contain no comma and splitting on commas gives the pieces back. */
  lemma {:induction false} SplitJoin(parts: seq<string>)
    requires |parts| >= 1
    requires forall k :: 0 <= k < |parts| ==> NoneOf(parts[k], IsComma)
    ensures Split(Join(parts, ","), IsComma) == parts
  {
    SplitJoinOn(parts, ',', IsComma);
  }

  lemma {:induction false} SplitNoSeparator(s: string, isSep: char -> bool)
    requires NoneOf(s, isSep)
    ensures Split(s, isSep) == [s]
  {
    if |s| > 0 {
      assert !isSep(s[0]);
      SplitNoSeparator(s[1..], isSep);
      assert s == [s[0]] + s[1..];
    }
  }

  /** `xs.filter(p)`. */
  function Select<T(!new)>(xs: seq<T>, p: T -> bool): (r: seq<T>)
    ensures |r| <= |xs|
    ensures forall x :: x in r <==> x in xs && p(x)
  {
    if |xs| == 0 then []
    else
      assert forall x :: x in xs <==> x == xs[0] || x in xs[1..];
      (if p(xs[0]) then [xs[0]] else []) + Select(xs[1..], p)
  }

  /** Selection keeps the order of the input: selecting from two parts in turn is
      selecting from their concatenation. */
  lemma {:induction false} SelectAppend<T(!new)>(a: seq<T>, b: seq<T>, p: T -> bool)
    ensures Select(a + b, p) == Select(a, p) + Select(b, p)
    decreases |a|
  {
    if |a| > 0 {
      assert (a + b)[0] == a[0];
      assert (a + b)[1..] == a[1..] + b;
      SelectAppend(a[1..], b, p);
      var head := if p(a[0]) then [a[0]] else [];
      assert Select(a + b, p) == head + (Select(a[1..], p) + Select(b, p));
    } else {
      assert a + b == b;
    }
  }

  /** Selecting with a test every element passes keeps the whole sequence. */
  lemma {:induction false} SelectAll<T(!new)>(xs: seq<T>, p: T -> bool)
    requires forall k :: 0 <= k < |xs| ==> p(xs[k])
    ensures Select(xs, p) == xs
    decreases |xs|
  {
    if |xs| > 0 {
      var tail := xs[1..];
      assert forall k :: 0 <= k < |tail| ==> p(tail[k]) by {
        forall k | 0 <= k < |tail| ensures p(tail[k]) { assert tail[k] == xs[k + 1]; }
      }
      SelectAll(tail, p);
      assert Select(xs, p) == [xs[0]] + tail;
    }
  }

  lemma {:induction false} SelectEmpty<T(!new)>(xs: seq<T>, p: T -> bool)
    ensures |Select(xs, p)| == 0 <==> forall k :: 0 <= k < |xs| ==> !p(xs[k])
  {
    if |Select(xs, p)| > 0 {
      assert Select(xs, p)[0] in Select(xs, p);
    } else {
      forall k | 0 <= k < |xs| ensures !p(xs[k]) {
        assert xs[k] in xs;
      }
    }
  }

  /** `xs.map(f)`. */
  function MapSeq<T, U>(xs: seq<T>, f: T -> U): (r: seq<U>)
    ensures |r| == |xs| && forall i :: 0 <= i < |xs| ==> r[i] == f(xs[i])
  {
    seq(|xs|, i requires 0 <= i < |xs| => f(xs[i]))
  }

  /** `[...new Set(xs)]`: the distinct elements of `xs` in order of first occurrence. */
  function Dedup<T(==,!new)>(xs: seq<T>): (r: seq<T>)
    ensures forall i, j :: 0 <= i < j < |r| ==> r[i] != r[j]
    ensures forall x :: x in r <==> x in xs
    ensures |r| <= |xs|
    ensures |xs| > 0 ==> |r| > 0 && r[0] == xs[0]
  {
    if |xs| == 0 then []
    else
      var d := Dedup(xs[..|xs| - 1]);
      assert forall x :: x in xs <==> x in xs[..|xs| - 1] || x == xs[|xs| - 1];
      if xs[|xs| - 1] in d then d else d + [xs[|xs| - 1]]
  }

  /** The ASCII part of `toLowerCase`. */
  function LowerChar(c: char): char {
    if 'A' <= c <= 'Z' then (c as int + 32) as char else c
  }

  function ToLower(s: string): (r: string)
    ensures |r| == |s| && forall i :: 0 <= i < |s| ==> r[i] == LowerChar(s[i])
  {
    seq(|s|, i requires 0 <= i < |s| => LowerChar(s[i]))
  }

  lemma {:induction false} ToLowerIdempotent(s: string)
    ensures ToLower(ToLower(s)) == ToLower(s)
  {
  }

  lemma {:induction false} ToLowerConcat(a: string, b: string)
    ensures ToLower(a + b) == ToLower(a) + ToLower(b)
  {
    assert forall i :: 0 <= i < |a + b| ==> (a + b)[i] == if i < |a| then a[i] else b[i - |a|];
  }
}
