/** The backup file read back: a file written by `convertToCSV` (with the
    byte-order mark the download puts in front of it) is accepted by `parseCSV`,
    both as written and with the corrected row reader, and every entry comes back
    with its six exported fields, each trimmed, and the import time standing in for
    an empty timestamp. As written, a double quote inside a value is lost on the
    way back; the corrected reader keeps it. */
module BackupRoundTrip {
  import opened Wrappers
  import opened JsString
  import opened BackupCsv

  // ---------------------------------------------------------------- the header line

  predicate IsLetter(c: char) { 'a' <= c <= 'z' || 'A' <= c <= 'Z' }

  /** A non-empty run of ASCII letters, such as a column name. */
  predicate Word(v: string) { |v| > 0 && forall i :: 0 <= i < |v| ==> IsLetter(v[i]) }

  /** The header names as `parseCSV` sees them after lower-casing. */
  const LowerColumns: seq<string> := ["phonenumber", "vendorid", "vendorname", "vendorphonetic", "vendorindustry", "timestamp"]

  lemma {:induction false} WordPlain(v: string)
    requires Word(v)
    ensures EscapeField(v) == v
  {
    assert !NeedsQuoting(v);
  }

  lemma {:induction false} WordsPlain(vs: seq<string>)
    requires forall k :: 0 <= k < |vs| ==> Word(vs[k])
    ensures EscapedAll(vs) == vs
    decreases |vs|
  {
    if |vs| > 0 {
      WordPlain(vs[0]);
      WordsPlain(vs[1..]);
      assert EscapedAll(vs) == [vs[0]] + vs[1..];
    }
  }

  lemma {:induction false} LowerWord(v: string)
    requires Word(v)
    ensures Word(ToLower(v)) && Trim(ToLower(v)) == ToLower(v) && NoneOf(ToLower(v), IsComma)
  {
  }

  lemma {:induction false} ToLowerJoin(parts: seq<string>)
    ensures ToLower(Join(parts, ",")) == Join(LowerEach(parts), ",")
    decreases |parts|
  {
    if |parts| > 1 {
      ToLowerJoin(parts[1..]);
      ToLowerConcat(parts[0] + ",", Join(parts[1..], ","));
      ToLowerConcat(parts[0], ",");
      assert ToLower(",") == ",";
      assert LowerEach(parts)[1..] == LowerEach(parts[1..]);
    }
  }

  lemma {:induction false} JoinAppendLast(parts: seq<string>, sep: string, t: string)
    requires |parts| >= 1
    ensures Join(parts, sep) + t == Join(parts[..|parts| - 1] + [parts[|parts| - 1] + t], sep)
    decreases |parts|
  {
    var q := parts[..|parts| - 1] + [parts[|parts| - 1] + t];
    if |parts| > 1 {
      JoinAppendLast(parts[1..], sep, t);
      assert q[1..] == parts[1..][..|parts| - 2] + [parts[|parts| - 1] + t];
      assert q[0] == parts[0];
    } else {
      assert q == [parts[0] + t];
    }
  }

  /** The pieces with `tail` appended to the last one. */
  function WithTail(parts: seq<string>, tail: string): (r: seq<string>)
    requires |parts| >= 1
    ensures |r| == |parts| && r[|r| - 1] == parts[|parts| - 1] + tail
    ensures forall k :: 0 <= k < |parts| - 1 ==> r[k] == parts[k]
  {
    parts[..|parts| - 1] + [parts[|parts| - 1] + tail]
  }

  lemma {:induction false} HeaderLineLowered(vs: seq<string>, tail: string)
    requires |vs| >= 1 && |vs[0]| > 0 && vs[0][0] != '\U{FEFF}' && EscapedAll(vs) == vs
    requires ToLower(tail) == tail
    ensures ToLower(StripBom(Line(vs) + tail)) == Join(WithTail(LowerEach(vs), tail), ",")
  {
    var j := Join(vs, ",");
    assert StripBom(j + tail) == j + tail by {
      assert j[0] == vs[0][0];
    }
    assert ToLower(j + tail) == ToLower(j) + tail by {
      ToLowerConcat(j, tail);
    }
    assert ToLower(j) == Join(LowerEach(vs), ",") by {
      ToLowerJoin(vs);
    }
    assert Join(LowerEach(vs), ",") + tail == Join(WithTail(LowerEach(vs), tail), ",") by {
      JoinAppendLast(LowerEach(vs), ",", tail);
    }
  }

  lemma {:induction false} HeaderPieces(low: seq<string>, tail: string)
    requires |low| >= 1 && forall k :: 0 <= k < |low| ==> Word(low[k])
    requires tail == "" || tail == "\r"
    ensures TrimEach(Split(Join(WithTail(low, tail), ","), IsComma)) == low
  {
    var n := |low|;
    var parts := WithTail(low, tail);
    assert forall k :: 0 <= k < n ==> NoneOf(parts[k], IsComma) && Trim(parts[k]) == low[k] by {
      forall k | 0 <= k < n ensures NoneOf(parts[k], IsComma) && Trim(parts[k]) == low[k] {
        if k < n - 1 {
          assert parts[k] == low[k];
        } else {
          LastPiece(low[k], tail);
        }
      }
    }
    assert Split(Join(parts, ","), IsComma) == parts by {
      SplitJoin(parts);
    }
    TrimEachIs(parts, low);
  }

  lemma {:induction false} TrimEachIs(xs: seq<string>, ys: seq<string>)
    requires |xs| == |ys| && forall k :: 0 <= k < |xs| ==> Trim(xs[k]) == ys[k]
    ensures TrimEach(xs) == ys
  {
  }

  lemma {:induction false} LastPiece(v: string, tail: string)
    requires Word(v) && (tail == "" || tail == "\r")
    ensures NoneOf(v + tail, IsComma) && Trim(v + tail) == v
  {
    assert Trim(v) == v by {
      assert !IsSpace(v[0]) && !IsSpace(v[|v| - 1]);
    }
    assert NoneOf(v + tail, IsComma) by {
      forall i | 0 <= i < |v + tail| ensures !IsComma((v + tail)[i]) {
        if i < |v| {
          assert (v + tail)[i] == v[i];
        }
      }
    }
    if tail == "\r" {
      TrimTrailingSpace(v, '\r');
    } else {
      assert v + tail == v;
    }
  }

  /** The header line of a file whose header names are words, with or without the
      carriage return of a CRLF file, yields the names lower-cased. */
  lemma {:induction false} HeaderLine(vs: seq<string>, tail: string)
    requires |vs| >= 1 && forall k :: 0 <= k < |vs| ==> Word(vs[k])
    requires tail == "" || tail == "\r"
    ensures Headers(Line(vs) + tail) == LowerEach(vs)
  {
    WordsPlain(vs);
    assert ToLower(tail) == tail;
    HeaderLineLowered(vs, tail);
    assert forall k :: 0 <= k < |vs| ==> Word(LowerEach(vs)[k]) by {
      forall k | 0 <= k < |vs| ensures Word(LowerEach(vs)[k]) {
        LowerWord(vs[k]);
      }
    }
    HeaderPieces(LowerEach(vs), tail);
  }

  lemma {:induction false} ColumnsAreWords()
    ensures forall k :: 0 <= k < |Columns| ==> Word(Columns[k])
  {
  }

  lemma {:induction false} LowerColumnsOfColumns()
    ensures LowerEach(Columns) == LowerColumns
  {
    LowerOf("phoneNumber", "phonenumber");
    LowerOf("vendorId", "vendorid");
    LowerOf("vendorName", "vendorname");
    LowerOf("vendorPhonetic", "vendorphonetic");
    LowerOf("vendorIndustry", "vendorindustry");
    LowerOf("timestamp", "timestamp");
  }

  lemma {:induction false} LowerOf(s: string, t: string)
    requires |s| == |t| && forall i :: 0 <= i < |s| ==> LowerChar(s[i]) == t[i]
    ensures ToLower(s) == t
  {
  }

  /** The exported header line names every column `parseCSV` requires. */
  lemma {:induction false} NothingMissing()
    ensures MissingHeaders(LowerColumns) == []
  {
    var found := LowerEach(LowerColumns);
    assert found == LowerColumns by {
      LowerColumnsOfColumns();
      forall k | 0 <= k < |Columns| ensures ToLower(LowerColumns[k]) == LowerColumns[k] {
        ToLowerIdempotent(Columns[k]);
      }
    }
    assert HeaderFound(found, "phonenumber") by { assert found[0] == "phonenumber"; }
    assert HeaderFound(found, "vendorid") by { assert found[1] == "vendorid"; }
    assert HeaderFound(found, "vendorname") by { assert found[2] == "vendorname"; }
    AllFoundNoneMissing(LowerColumns);
  }

  lemma {:induction false} AllFoundNoneMissing(headers: seq<string>)
    requires forall r :: r in Required ==> HeaderFound(LowerEach(headers), r)
    ensures MissingHeaders(headers) == []
  {
    var m := MissingHeaders(headers);
    assert forall r :: r !in m;
  }

  /** Each lower-cased header is stored under the exported column it came from. */
  lemma {:induction false} KeysOfLowerColumns()
    ensures forall k :: 0 <= k < |Columns| ==> Key(LowerColumns[k]) == Columns[k]
  {
    LowerColumnsOfColumns();
    forall k | 0 <= k < |Columns| ensures ToLower(LowerColumns[k]) == LowerColumns[k] {
      ToLowerIdempotent(Columns[k]);
    }
  }

  // ---------------------------------------------------------------- one entry

  /** The entry an exported entry comes back as: its six exported fields, each read
      back (trimmed, and as written with every quote dropped), a missing field read as
      empty, and `now` for an empty timestamp. */
  function Restored(how: Reading, o: Obj, now: string): Obj {
    var t := ReadFields(how, o, Columns);
    if FieldOf(t, "timestamp") == "" then t["timestamp" := now] else t
  }

  /** The fields `cols` of `o`, each read back. */
  function ReadFields(how: Reading, o: Obj, cols: seq<string>): (t: Obj)
    ensures forall x :: x in t <==> x in cols
    ensures forall x :: x in t ==> t[x] == ReadBack(how, FieldOf(o, x))
  {
    map k | k in cols :: ReadBack(how, FieldOf(o, k))
  }

  function RestoredAll(how: Reading, data: seq<Obj>, now: string): (r: seq<Obj>)
    ensures |r| == |data| && forall i :: 0 <= i < |data| ==> r[i] == Restored(how, data[i], now)
  {
    seq(|data|, i requires 0 <= i < |data| => Restored(how, data[i], now))
  }

  /** Under distinct field names, each value is stored under its field, and nothing
      else is added. */
  lemma {:induction false} AssignStores(o: Obj, ks: seq<string>, vs: seq<string>)
    requires |ks| == |vs|
    requires forall i, j :: 0 <= i < j < |ks| ==> ks[i] != ks[j]
    ensures forall k :: 0 <= k < |ks| ==> ks[k] in Assign(o, ks, vs) && Assign(o, ks, vs)[ks[k]] == vs[k]
    ensures forall x :: x in Assign(o, ks, vs) <==> x in o || x in ks
    decreases |ks|
  {
    if |ks| > 0 {
      var o' := o[ks[0] := vs[0]];
      AssignStores(o', ks[1..], vs[1..]);
      var r := Assign(o, ks, vs);
      assert r == Assign(o', ks[1..], vs[1..]);
      assert forall x :: x in ks <==> x == ks[0] || x in ks[1..];
      forall k | 0 <= k < |ks| ensures ks[k] in r && r[ks[k]] == vs[k] {
        if k == 0 {
          assert ks[0] !in ks[1..];
          AssignKeeps(o', ks[1..], vs[1..], ks[0]);
        } else {
          assert ks[1..][k - 1] == ks[k] && vs[1..][k - 1] == vs[k];
        }
      }
    }
  }

  /** A field no column names keeps its value. */
  lemma {:induction false} AssignKeeps(o: Obj, ks: seq<string>, vs: seq<string>, x: string)
    requires |ks| == |vs| && x in o && x !in ks
    ensures x in Assign(o, ks, vs) && Assign(o, ks, vs)[x] == o[x]
    decreases |ks|
  {
    if |ks| > 0 {
      AssignKeeps(o[ks[0] := vs[0]], ks[1..], vs[1..], x);
    }
  }

  lemma {:induction false} ColumnsDistinct()
    ensures forall i, j :: 0 <= i < j < |Columns| ==> Columns[i] != Columns[j]
  {
  }

  /** Storing values under distinct field names gives the map that has exactly those
      fields with those values. */
  lemma {:induction false} AssignIs(ks: seq<string>, vs: seq<string>, m: Obj)
    requires |vs| == |ks| && forall i, j :: 0 <= i < j < |ks| ==> ks[i] != ks[j]
    requires forall k :: 0 <= k < |ks| ==> ks[k] in m && m[ks[k]] == vs[k]
    requires forall x :: x in m ==> x in ks
    ensures Assign(map[], ks, vs) == m
  {
    AssignStores(map[], ks, vs);
    var a := Assign(map[], ks, vs);
    forall x | x in a ensures x in m && a[x] == m[x] {
      assert x in ks;
      var k :| 0 <= k < |ks| && ks[k] == x;
      assert a[ks[k]] == vs[k];
    }
  }

  lemma {:induction false} KeysOfExported()
    ensures KeysOf(LowerColumns) == Columns
  {
    KeysOfLowerColumns();
  }

  /** Storing the values read back from distinct fields gives those fields read back. */
  lemma {:induction false} AssignReadFields(how: Reading, o: Obj, cols: seq<string>, vs: seq<string>)
    requires |vs| == |cols| && forall i, j :: 0 <= i < j < |cols| ==> cols[i] != cols[j]
    requires forall k :: 0 <= k < |cols| ==> vs[k] == FieldOf(o, cols[k])
    ensures Assign(map[], cols, ReadBackAll(how, vs)) == ReadFields(how, o, cols)
  {
    var t := ReadFields(how, o, cols);
    var rv := ReadBackAll(how, vs);
    forall k | 0 <= k < |cols| ensures cols[k] in t && t[cols[k]] == rv[k] {
      assert cols[k] in cols;
    }
    AssignIs(cols, rv, t);
  }

  lemma {:induction false} BuildEntryOf(headers: seq<string>, values: seq<string>, now: string)
    requires |values| == |headers|
    ensures var a := Assign(map[], KeysOf(headers), values);
      BuildEntry(headers, values, now) == if FieldOf(a, "timestamp") == "" then a["timestamp" := now] else a
  {
  }

  /** Reading the exported values of an entry under the exported header gives the
      restored entry. */
  lemma {:induction false} RestoredEntry(how: Reading, o: Obj, now: string)
    ensures BuildEntry(LowerColumns, ReadBackAll(how, Values(o)), now) == Restored(how, o, now)
  {
    ExportedAssign(how, o);
    BuildEntryOf(LowerColumns, ReadBackAll(how, Values(o)), now);
  }

  /** The values read back, stored under the exported header, are the exported fields read back. */
  lemma {:induction false} ExportedAssign(how: Reading, o: Obj)
    ensures Assign(map[], KeysOf(LowerColumns), ReadBackAll(how, Values(o))) == ReadFields(how, o, Columns)
  {
    KeysOfExported();
    ColumnsDistinct();
    AssignReadFields(how, o, Columns, Values(o));
  }

  // ---------------------------------------------------------------- the lines of the file

  /** The lines of a CRLF-joined text split at line feeds: each but the last keeps
      its carriage return. */
  function CrEnded(parts: seq<string>): (r: seq<string>)
    ensures |r| == |parts|
    ensures forall k :: 0 <= k < |parts| - 1 ==> r[k] == parts[k] + "\r"
    ensures |parts| > 0 ==> r[|r| - 1] == parts[|parts| - 1]
  {
    if |parts| <= 1 then parts else [parts[0] + "\r"] + CrEnded(parts[1..])
  }

  lemma {:induction false} CrlfJoin(parts: seq<string>)
    ensures Join(parts, "\r\n") == Join(CrEnded(parts), "\n")
    decreases |parts|
  {
    if |parts| > 1 {
      var cr := CrEnded(parts);
      var rest := Join(parts[1..], "\r\n");
      CrlfJoin(parts[1..]);
      assert cr[1..] == CrEnded(parts[1..]);
      assert Join(cr, "\n") == (parts[0] + "\r") + "\n" + rest;
      CrlfSplice(parts[0], rest);
    }
  }

  lemma {:induction false} CrlfSplice(a: string, b: string)
    ensures a + "\r\n" + b == (a + "\r") + "\n" + b
  {
    assert a + "\r\n" == (a + "\r") + "\n";
  }

  lemma {:induction false} JoinEdges(parts: seq<string>, sep: string)
    requires |parts| >= 1
    ensures |parts[0]| > 0 ==> |Join(parts, sep)| > 0 && Join(parts, sep)[0] == parts[0][0]
    ensures |parts[|parts| - 1]| > 0 ==>
      (|Join(parts, sep)| > 0 && Join(parts, sep)[|Join(parts, sep)| - 1] == parts[|parts| - 1][|parts[|parts| - 1]| - 1])
    decreases |parts|
  {
    if |parts| > 1 {
      JoinEdges(parts[1..], sep);
    }
  }

  /** Splitting a CRLF-joined text at line feeds, when no piece holds a line feed,
      gives the pieces with their carriage returns. */
  lemma {:induction false} SplitCrlf(parts: seq<string>)
    requires |parts| >= 1 && forall k :: 0 <= k < |parts| ==> NoneOf(parts[k], IsLineFeed)
    ensures Split(Join(parts, "\r\n"), IsLineFeed) == CrEnded(parts)
  {
    var lines := CrEnded(parts);
    assert Join(parts, "\r\n") == Join(lines, "\n") by {
      CrlfJoin(parts);
    }
    CrEndedNoLineFeed(parts);
    assert Split(Join(lines, "\n"), IsLineFeed) == lines by {
      SplitJoinOn(lines, '\n', IsLineFeed);
    }
  }

  lemma {:induction false} CrEndedNoLineFeed(parts: seq<string>)
    requires forall k :: 0 <= k < |parts| ==> NoneOf(parts[k], IsLineFeed)
    ensures forall k :: 0 <= k < |parts| ==> NoneOf(CrEnded(parts)[k], IsLineFeed)
  {
    forall k | 0 <= k < |parts| ensures NoneOf(CrEnded(parts)[k], IsLineFeed) {
      if k < |parts| - 1 {
        CrKeepsNoLineFeed(parts[k]);
      }
    }
  }

  lemma {:induction false} CrKeepsNoLineFeed(x: string)
    requires NoneOf(x, IsLineFeed)
    ensures NoneOf(x + "\r", IsLineFeed)
  {
  }

  lemma {:induction false} DoubleQuotesKeeps(v: string, p: char -> bool)
    requires !p('"') && NoneOf(v, p)
    ensures NoneOf(DoubleQuotes(v), p)
    decreases |v|
  {
    if |v| > 0 {
      DoubleQuotesKeeps(v[1..], p);
      var head := if v[0] == '"' then "\"\"" else [v[0]];
      assert DoubleQuotes(v) == head + DoubleQuotes(v[1..]);
    }
  }

  /** Escaping adds no character but the quote. */
  lemma {:induction false} EscapeKeeps(v: string, p: char -> bool)
    requires !p('"') && NoneOf(v, p)
    ensures NoneOf(EscapeField(v), p)
  {
    if NeedsQuoting(v) {
      DoubleQuotesKeeps(v, p);
    }
  }

  /** An exported line holds no character, other than a quote or a comma, that none
      of its values holds. */
  lemma {:induction false} LineKeeps(vs: seq<string>, p: char -> bool)
    requires !p('"') && !p(',') && forall k :: 0 <= k < |vs| ==> NoneOf(vs[k], p)
    ensures NoneOf(Line(vs), p)
  {
    var es := EscapedAll(vs);
    forall k | 0 <= k < |es| ensures NoneOf(es[k], p) {
      EscapeKeeps(vs[k], p);
    }
    JoinChars(es, ",", c => !p(c));
  }

  lemma {:induction false} EscapeLast(v: string)
    ensures |EscapeField(v)| > 0 ==> !IsSpace(EscapeField(v)[|EscapeField(v)| - 1])
  {
  }

  /** An exported line of two or more values ends in a character `trim` keeps. */
  lemma {:induction false} LineLast(vs: seq<string>)
    requires |vs| >= 2
    ensures |Line(vs)| > 0 && !IsSpace(Line(vs)[|Line(vs)| - 1])
    decreases |vs|
  {
    LineCons(vs);
    var rest := Line(vs[1..]);
    if |vs| == 2 {
      LineSingle(vs[1..]);
      EscapeLast(vs[1]);
    } else {
      LineLast(vs[1..]);
    }
    var l := Line(vs);
    assert l == EscapeField(vs[0]) + "," + rest;
    if |rest| > 0 {
      assert l[|l| - 1] == rest[|rest| - 1];
    } else {
      assert l[|l| - 1] == ',';
    }
  }

  /** An exported line of two or more values holds a comma. */
  lemma {:induction false} LineComma(vs: seq<string>)
    requires |vs| >= 2
    ensures !NoneOf(Line(vs), IsComma)
  {
    LineCons(vs);
    assert Line(vs)[|EscapeField(vs[0])|] == ',';
  }

  /** A line with a comma in it is not blank. */
  lemma {:induction false} CommaNotBlank(s: string)
    requires !NoneOf(s, IsComma)
    ensures NonBlankLine(s)
  {
    var i, j := TrimIsSlice(s);
  }

  // ---------------------------------------------------------------- the file

  /** The lines `convertToCSV` joins: the header line, then one line per entry. */
  function ExportedLines(data: seq<Obj>): (r: seq<string>)
    ensures |r| == |data| + 1 && r[0] == Line(Columns)
    ensures forall i :: 0 <= i < |data| ==> r[i + 1] == Line(Values(data[i]))
  {
    Prepend(Line(Columns), RowLines(data))
  }

  function Prepend(h: string, rest: seq<string>): (r: seq<string>)
    ensures |r| == |rest| + 1 && r[0] == h && r[1..] == rest
  {
    [h] + rest
  }

  /** No value of the entry holds a line feed. */
  predicate EntryNoLineFeed(o: Obj) {
    forall f :: f in o ==> NoneOf(o[f], IsLineFeed)
  }

  /** No stored value holds a line feed. */
  predicate NoLineFeeds(data: seq<Obj>) {
    forall i :: 0 <= i < |data| ==> EntryNoLineFeed(data[i])
  }

  lemma {:induction false} HeaderFirst()
    ensures StartKept(Line(Columns))
  {
    ColumnsAreWords();
    WordsPlain(Columns);
    JoinEdges(Columns, ",");
  }

  lemma {:induction false} HeaderNoLineFeed()
    ensures NoneOf(Line(Columns), IsLineFeed)
  {
    ColumnsAreWords();
    LineKeeps(Columns, IsLineFeed);
  }

  lemma {:induction false} EntryLineNoLineFeed(o: Obj)
    requires EntryNoLineFeed(o)
    ensures NoneOf(Line(Values(o)), IsLineFeed)
  {
    var vs := Values(o);
    assert forall j :: 0 <= j < |vs| ==> NoneOf(vs[j], IsLineFeed);
    LineKeeps(vs, IsLineFeed);
  }

  lemma {:induction false} ExportedLinesNoLineFeed(data: seq<Obj>)
    requires NoLineFeeds(data)
    ensures forall k :: 0 <= k < |data| + 1 ==> NoneOf(ExportedLines(data)[k], IsLineFeed)
  {
    var parts := ExportedLines(data);
    forall k | 0 <= k < |parts| ensures NoneOf(parts[k], IsLineFeed) {
      if k == 0 {
        HeaderNoLineFeed();
      } else {
        assert parts[k] == Line(Values(data[k - 1]));
        EntryLineNoLineFeed(data[k - 1]);
      }
    }
  }

  /** The exported text starts and ends with characters `trim` keeps. */
  lemma {:induction false} ExportedEdges(data: seq<Obj>)
    requires |data| >= 1
    ensures var text := Join(ExportedLines(data), "\r\n");
      |text| > 0 && !IsSpace(text[0]) && !IsSpace(text[|text| - 1])
  {
    var parts := ExportedLines(data);
    assert StartKept(parts[0]) by { HeaderFirst(); }
    assert EdgeKept(parts[|parts| - 1]) by {
      assert parts[|parts| - 1] == Line(Values(data[|data| - 1]));
      EntryLineLast(data[|data| - 1]);
    }
    JoinTrimEdges(parts, "\r\n");
  }

  /** A non-empty string whose first character `trim` keeps. */
  predicate StartKept(l: string) { |l| > 0 && !IsSpace(l[0]) }

  /** A non-empty string whose last character `trim` keeps. */
  predicate EdgeKept(l: string) { |l| > 0 && !IsSpace(l[|l| - 1]) }

  lemma {:induction false} JoinTrimEdges(parts: seq<string>, sep: string)
    requires |parts| >= 1 && StartKept(parts[0])
    requires EdgeKept(parts[|parts| - 1])
    ensures var text := Join(parts, sep); |text| > 0 && !IsSpace(text[0]) && !IsSpace(text[|text| - 1])
  {
    JoinEdges(parts, sep);
  }

  /** An entry's line ends in a character `trim` keeps. */
  lemma {:induction false} EntryLineLast(o: Obj)
    ensures EdgeKept(Line(Values(o)))
  {
    LineLast(Values(o));
  }

  /** `trim` leaves the exported text as it is. */
  lemma {:induction false} ExportedTrimmed(data: seq<Obj>)
    requires |data| >= 1
    ensures Trim(ConvertToCsv(data)) == Join(ExportedLines(data), "\r\n")
  {
    var text := Join(ExportedLines(data), "\r\n");
    assert ConvertToCsv(data) == text;
    ExportedEdges(data);
  }

  /** The lines `parseCSV` splits the exported text into. */
  lemma {:induction false} ExportedText(data: seq<Obj>)
    requires |data| >= 1 && NoLineFeeds(data)
    ensures Split(Trim(ConvertToCsv(data)), IsLineFeed) == CrEnded(ExportedLines(data))
  {
    var parts := ExportedLines(data);
    var text := Join(parts, "\r\n");
    assert Trim(ConvertToCsv(data)) == text by { ExportedTrimmed(data); }
    ExportedLinesNoLineFeed(data);
    SplitCrlf(parts);
  }

  /** The byte-order mark the download puts in front is trimmed away. */
  lemma {:induction false} BomTrimmed(text: string)
    ensures Trim("\U{FEFF}" + text) == Trim(text)
  {
    TrimLeadingSpace("\U{FEFF}", text);
  }

  /** The values of each entry as a reading returns them. */
  function RowValues(how: Reading, data: seq<Obj>): (r: seq<seq<string>>)
    ensures |r| == |data| && forall i :: 0 <= i < |data| ==> r[i] == ReadBackAll(how, Values(data[i]))
  {
    if |data| == 0 then [] else [ReadBackAll(how, Values(data[0]))] + RowValues(how, data[1..])
  }

  lemma {:induction false} CommaKept(l: string, t: string)
    requires !NoneOf(l, IsComma)
    ensures !NoneOf(l + t, IsComma)
  {
    var p :| 0 <= p < |l| && IsComma(l[p]);
    assert (l + t)[p] == l[p];
  }

  /** A line of two or more values, with or without its carriage return, is
      non-blank and reads back value by value. */
  lemma {:induction false} RowReads(how: Reading, vs: seq<string>, tail: string)
    requires |vs| >= 2 && (tail == "" || tail == "\r")
    ensures NonBlankLine(Line(vs) + tail) && ReadRow(how, Line(vs) + tail) == ReadBackAll(how, vs)
  {
    LineComma(vs);
    CommaKept(Line(vs), tail);
    CommaNotBlank(Line(vs) + tail);
    ReimportRow(how, vs, tail);
  }

  /** `lines` holds, after the header line, one line per entry: its values joined,
      ended by a carriage return on all but the last. */
  predicate DataLines(lines: seq<string>, data: seq<Obj>)
  {
    |lines| == |data| + 1 &&
    (forall i :: 0 <= i < |data| - 1 ==> lines[i + 1] == Line(Values(data[i])) + "\r") &&
    (|data| > 0 ==> lines[|data|] == Line(Values(data[|data| - 1])))
  }

  lemma {:induction false} ExportedDataLines(data: seq<Obj>)
    ensures DataLines(CrEnded(ExportedLines(data)), data)
  {
  }

  /** One exported data line is non-blank and reads back as its entry's values. */
  lemma {:induction false} ImportedRow(how: Reading, data: seq<Obj>, lines: seq<string>, i: nat)
    requires DataLines(lines, data) && i < |data|
    ensures NonBlankLine(lines[i + 1]) && ReadRow(how, lines[i + 1]) == ReadBackAll(how, Values(data[i]))
  {
    var vs := Values(data[i]);
    if i < |data| - 1 {
      RowReads(how, vs, "\r");
    } else {
      assert lines[i + 1] == Line(vs) + "";
      RowReads(how, vs, "");
    }
  }

  /** Lines that are all non-blank are all kept, and read back as the rows they parse to. */
  lemma {:induction false} ParsedRows(how: Reading, rows: seq<string>, want: seq<seq<string>>)
    requires |rows| == |want|
    requires forall i :: 0 <= i < |rows| ==> NonBlankLine(rows[i]) && ReadRow(how, rows[i]) == want[i]
    ensures ParseRows(how, Select(rows, NonBlankLine)) == want
  {
    SelectAll(rows, NonBlankLine);
  }

  /** Every data line of the export is kept and reads back as its entry. */
  lemma {:induction false} ImportedRows(how: Reading, data: seq<Obj>, lines: seq<string>)
    requires DataLines(lines, data)
    ensures ParseRows(how, Select(lines[1..], NonBlankLine)) == RowValues(how, data)
  {
    var rows := lines[1..];
    var rv := RowValues(how, data);
    forall i | 0 <= i < |rows| ensures NonBlankLine(rows[i]) && ReadRow(how, rows[i]) == rv[i] {
      ImportedRow(how, data, lines, i);
    }
    ParsedRows(how, rows, rv);
  }

  /** Rows of the header's length all build, each into its entry. */
  lemma {:induction false} BuildEntriesAll(rows: seq<seq<string>>, headers: seq<string>, now: string, k: nat, es: seq<Obj>)
    requires |es| == |rows|
    requires forall i :: 0 <= i < |rows| ==> |rows[i]| == |headers| && BuildEntry(headers, rows[i], now) == es[i]
    ensures BuildEntries(rows, headers, now, k) == Ok(es)
  {
    var r := BuildEntries(rows, headers, now, k);
    assert r.Ok?;
    assert r.value == es;
  }

  /** Every row read back builds the restored entry. */
  lemma {:induction false} BuildAll(how: Reading, data: seq<Obj>, now: string)
    ensures BuildEntries(RowValues(how, data), LowerColumns, now, 0) == Ok(RestoredAll(how, data, now))
  {
    var rows := RowValues(how, data);
    var es := RestoredAll(how, data, now);
    forall i | 0 <= i < |rows| ensures |rows[i]| == |LowerColumns| && BuildEntry(LowerColumns, rows[i], now) == es[i] {
      RestoredEntry(how, data[i], now);
    }
    BuildEntriesAll(rows, LowerColumns, now, 0, es);
  }

  /** `parseCSV` on lines with a header line naming every required column reads the
      rows. */
  lemma {:induction false} ParseLinesReads(how: Reading, lines: seq<string>, now: string)
    requires |lines| >= 2 && MissingHeaders(Headers(lines[0])) == []
    ensures ParseLines(how, lines, now) == BuildEntries(ParseRows(how, Select(lines[1..], NonBlankLine)), Headers(lines[0]), now, 0)
  {
  }

  /** A backup file read back in either reading: for entries whose values hold no line
      feed, importing the exported text, as downloaded with its byte-order mark or
      without it, gives every entry back with its six exported fields, each read back,
      and `now` for an empty timestamp. */
  lemma {:induction false} ExportImportBy(how: Reading, data: seq<Obj>, now: string)
    requires |data| >= 1 && NoLineFeeds(data)
    ensures ParseLines(how, Split(Trim(ConvertToCsv(data)), IsLineFeed), now) == Ok(RestoredAll(how, data, now))
    ensures Trim("\U{FEFF}" + ConvertToCsv(data)) == Trim(ConvertToCsv(data))
  {
    var lines := CrEnded(ExportedLines(data));
    ExportedText(data);
    BomTrimmed(ConvertToCsv(data));
    assert lines[0] == Line(Columns) + "\r";
    assert Headers(lines[0]) == LowerColumns by {
      ColumnsAreWords();
      HeaderLine(Columns, "\r");
      LowerColumnsOfColumns();
    }
    NothingMissing();
    ParseLinesReads(how, lines, now);
    ExportedDataLines(data);
    ImportedRows(how, data, lines);
    BuildAll(how, data, now);
  }

  /** A backup file read back by `parseCSV` as written: every entry comes back with
      its six exported fields, each trimmed and with every quote dropped, and `now`
      for an empty timestamp. */
  lemma {:induction false} ExportImport(data: seq<Obj>, now: string)
    requires |data| >= 1 && NoLineFeeds(data)
    ensures ParseCsv(ConvertToCsv(data), now) == Ok(RestoredAll(AsWritten, data, now))
    ensures ParseCsv("\U{FEFF}" + ConvertToCsv(data), now) == Ok(RestoredAll(AsWritten, data, now))
  {
    ExportImportBy(AsWritten, data, now);
  }

  /** The same backup read back by the corrected reader: every entry comes back with
      its six exported fields, each trimmed, quotes included. */
  lemma {:induction false} ExportImportCorrected(data: seq<Obj>, now: string)
    requires |data| >= 1 && NoLineFeeds(data)
    ensures ParseCsvCorrected(ConvertToCsv(data), now) == Ok(RestoredAll(Rfc4180, data, now))
    ensures ParseCsvCorrected("\U{FEFF}" + ConvertToCsv(data), now) == Ok(RestoredAll(Rfc4180, data, now))
  {
    ExportImportBy(Rfc4180, data, now);
  }

  /** A restored entry has exactly the exported columns. */
  lemma {:induction false} RestoredDomain(how: Reading, o: Obj, now: string)
    ensures forall x :: x in Restored(how, o, now) <==> x in Columns
  {
    assert "timestamp" in Columns;
  }

  /** Each exported column other than the timestamp holds its value read back. */
  lemma {:induction false} RestoredAt(how: Reading, o: Obj, now: string, x: string)
    requires x in Columns && x != "timestamp"
    ensures x in Restored(how, o, now) && Restored(how, o, now)[x] == ReadBack(how, FieldOf(o, x))
  {
  }

  /** The timestamp is read back, or `now` when it reads back empty. */
  lemma {:induction false} RestoredTimestamp(how: Reading, o: Obj, now: string)
    ensures "timestamp" in Restored(how, o, now)
    ensures var t := ReadBack(how, FieldOf(o, "timestamp")); Restored(how, o, now)["timestamp"] == if t == "" then now else t
  {
    assert "timestamp" in Columns;
  }

  /** No field of the entry holds a quote. */
  predicate QuoteFree(o: Obj) {
    forall f :: f in o ==> NoneOf(o[f], IsQuote)
  }

  /** Entries without quotes come back the same from both readings: as written the
      round trip then only trims. */
  lemma {:induction false} QuoteFreeRestoredAlike(o: Obj, now: string)
    requires QuoteFree(o)
    ensures Restored(AsWritten, o, now) == Restored(Rfc4180, o, now)
  {
    QuoteFreeFieldsAlike(o, Columns);
  }

  lemma {:induction false} QuoteFreeFieldsAlike(o: Obj, cols: seq<string>)
    requires QuoteFree(o)
    ensures ReadFields(AsWritten, o, cols) == ReadFields(Rfc4180, o, cols)
  {
    var a := ReadFields(AsWritten, o, cols);
    var b := ReadFields(Rfc4180, o, cols);
    forall x | x in a ensures a[x] == b[x] {
      FieldQuoteFree(o, x);
    }
    SameObj(a, b);
  }

  /** Two entries with the same fields and the same value in each are equal. */
  lemma {:induction false} SameObj(a: Obj, b: Obj)
    requires forall x :: x in a <==> x in b
    requires forall x :: x in a ==> a[x] == b[x]
    ensures a == b
  {
  }

  lemma {:induction false} FieldQuoteFree(o: Obj, x: string)
    requires QuoteFree(o)
    ensures ReadBack(AsWritten, FieldOf(o, x)) == ReadBack(Rfc4180, FieldOf(o, x))
  {
    if x in o {
      assert NoneOf(o[x], IsQuote);
    }
    QuoteFreeReadsAlike(FieldOf(o, x));
  }

  /** A field holding `a"b` comes back from the import as written as `ab`: the quote
      is lost, where the corrected reader gives `a"b` back. */
  lemma {:induction false} QuoteLostOnImport(data: seq<Obj>, now: string, i: nat, f: string)
    requires |data| >= 1 && NoLineFeeds(data) && i < |data|
    requires f in Columns && f != "timestamp" && FieldOf(data[i], f) == "a\"b"
    ensures var r := ParseCsv(ConvertToCsv(data), now);
      r.Ok? && i < |r.value| && f in r.value[i] && r.value[i][f] == "ab"
    ensures var r := ParseCsvCorrected(ConvertToCsv(data), now);
      r.Ok? && i < |r.value| && f in r.value[i] && r.value[i][f] == "a\"b"
  {
    ExportImport(data, now);
    ExportImportCorrected(data, now);
    RestoredAt(AsWritten, data[i], now, f);
    RestoredAt(Rfc4180, data[i], now, f);
    QuoteDropped(FieldOf(data[i], f));
    QuoteTrimmed(FieldOf(data[i], f));
  }

  lemma {:induction false} QuoteTrimmed(v: string)
    requires v == "a\"b"
    ensures Trim(v) == v
  {
    assert !IsSpace(v[0]) && !IsSpace(v[2]);
  }

  /** With no entries the download is empty, and importing it fails for want of a
      header line and a data line. */
  lemma {:induction false} EmptyExportRejected(now: string)
    ensures ConvertToCsv([]) == ""
    ensures ParseCsv(ConvertToCsv([]), now) == Err(TooFewLines)
    ensures ParseCsv("\U{FEFF}" + ConvertToCsv([]), now) == Err(TooFewLines)
  {
    TrimAllSpace("\U{FEFF}");
    assert Trim("") == "";
  }

  /** An entry holding exactly the six exported fields, each already trimmed and
      with a timestamp, survives the round trip unchanged. */
  lemma {:induction false} PlainEntrySurvives(o: Obj, now: string)
    requires forall f :: f in o <==> f in Columns
    requires forall f :: f in o ==> Trim(o[f]) == o[f]
    requires "timestamp" in o && o["timestamp"] != ""
    ensures Restored(Rfc4180, o, now) == o
    ensures QuoteFree(o) ==> Restored(AsWritten, o, now) == o
  {
    var t := ReadFields(Rfc4180, o, Columns);
    assert t == o;
    if QuoteFree(o) {
      QuoteFreeRestoredAlike(o, now);
    }
  }
}
