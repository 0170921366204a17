/** The backup file of the vendor-registration popup: the CSV export
    (`convertToCSV`, `escapeCSVField`), the CSV import (`parseCSV`), the checks run
    on every imported entry (`validateEntries`) and the merge into the stored list.

    A stored entry is a JavaScript object whose fields are strings; it is modelled
    as a map from field name to value, an absent key being a missing field. */
module BackupCsv {
  import opened Wrappers
  import opened JsString

  type Obj = map<string, string>

  /** `entry[k]` compared with `===`: `None` stands for `undefined`. */
  function Lookup(o: Obj, k: string): Option<string> {
    if k in o then Some(o[k]) else None
  }

  /** `entry[k]` as `convertToCSV` reads it: a missing field becomes `''`. */
  function FieldOf(o: Obj, k: string): string {
    if k in o then o[k] else ""
  }

  /** The exported columns, in order. */
  const Columns: seq<string> := ["phoneNumber", "vendorId", "vendorName", "vendorPhonetic", "vendorIndustry", "timestamp"]

  // ---------------------------------------------------------------- escapeCSVField

  predicate IsQuote(c: char) { c == '"' }
  predicate IsNotQuote(c: char) { c != '"' }
  predicate IsLineFeed(c: char) { c == '\n' }

  /** The condition under which `escapeCSVField` quotes a value: a comma, a quote, a
      line break, white space at either end, or a character outside ASCII. */
  predicate NeedsQuoting(v: string) {
    || ',' in v || '"' in v || '\n' in v || '\r' in v
    || (|v| > 0 && (IsSpace(v[0]) || IsSpace(v[|v| - 1])))
    || exists i :: 0 <= i < |v| && v[i] as int > 0x7F
  }

  /** `value.replace(/"/g, '""')`. */
  function DoubleQuotes(v: string): (r: string)
    ensures |r| >= |v|
  {
    if |v| == 0 then ""
    else (if v[0] == '"' then "\"\"" else [v[0]]) + DoubleQuotes(v[1..])
  }

  /** `escapeCSVField(value)`. */
  function EscapeField(v: string): (r: string)
    ensures !NeedsQuoting(v) ==> r == v
    ensures NeedsQuoting(v) ==> |r| >= 2 && r[0] == '"' && r[|r| - 1] == '"'
  {
    if NeedsQuoting(v) then "\"" + DoubleQuotes(v) + "\"" else v
  }

  /** The reading of a field that section 2 of RFC 4180 prescribes: an enclosing pair
      of quotes is removed and each doubled quote inside stands for one. */
  function UnescapeField(r: string): string {
    if |r| >= 2 && r[0] == '"' && r[|r| - 1] == '"' then Undouble(r[1..|r| - 1]) else r
  }

  function Undouble(s: string): string {
    if |s| == 0 then ""
    else if |s| >= 2 && s[0] == '"' && s[1] == '"' then "\"" + Undouble(s[2..])
    else [s[0]] + Undouble(s[1..])
  }

  lemma {:induction false} UndoubleDouble(v: string)
    ensures Undouble(DoubleQuotes(v)) == v
  {
    if |v| > 0 {
      var rest := DoubleQuotes(v[1..]);
      UndoubleDouble(v[1..]);
      if v[0] == '"' {
        assert ("\"\"" + rest)[2..] == rest;
      } else {
        assert ([v[0]] + rest)[1..] == rest;
      }
      assert v == [v[0]] + v[1..];
    }
  }

  /** The export encodes every value losslessly: the RFC 4180 reading of an escaped
      field is the value itself. */
  lemma {:induction false} EscapeRoundTrip(v: string)
    ensures UnescapeField(EscapeField(v)) == v
  {
    var r := EscapeField(v);
    if NeedsQuoting(v) {
      assert r[1..|r| - 1] == DoubleQuotes(v);
      UndoubleDouble(v);
    } else if |v| >= 2 {
      assert v[0] in v;
    }
  }

  // ---------------------------------------------------------------- parseCSV: one row, as written

  /** The state of the character loop of `parseCSV` as written: `inQuotes`,
      `currentValue` and the values pushed so far. */
  datatype ToggleState = ToggleState(inQuotes: bool, current: string, values: seq<string>)

  /** One character: a quote flips `inQuotes` and is dropped, a comma outside quotes
      ends the value (trimmed), anything else is appended. */
  function ToggleStep(st: ToggleState, c: char): ToggleState {
    if c == '"' then st.(inQuotes := !st.inQuotes)
    else if c == ',' && !st.inQuotes then ToggleState(st.inQuotes, "", st.values + [Trim(st.current)])
    else st.(current := st.current + [c])
  }

  function ToggleRun(st: ToggleState, s: string): ToggleState
    decreases |s|
  {
    if |s| == 0 then st else ToggleRun(ToggleStep(st, s[0]), s[1..])
  }

  /** No value a row yields contains a quote, and each is trimmed. */
  predicate CleanValue(v: string) { NoneOf(v, IsQuote) && Trim(v) == v }

  /** The values the loop as written yields for one line of the file. */
  function ParseRowAsWritten(line: string): (values: seq<string>)
    ensures |values| >= 1
    ensures forall k :: 0 <= k < |values| ==> CleanValue(values[k])
  {
    var st := ToggleRun(ToggleState(false, "", []), line);
    ToggleRunKeepsClean(ToggleState(false, "", []), line);
    TrimNoneOf(st.current, IsQuote);
    TrimIdempotent(st.current);
    st.values + [Trim(st.current)]
  }

  lemma {:induction false} ToggleRunKeepsClean(st: ToggleState, s: string)
    requires NoneOf(st.current, IsQuote) && forall k :: 0 <= k < |st.values| ==> CleanValue(st.values[k])
    ensures NoneOf(ToggleRun(st, s).current, IsQuote)
    ensures forall k :: 0 <= k < |ToggleRun(st, s).values| ==> CleanValue(ToggleRun(st, s).values[k])
    decreases |s|
  {
    if |s| > 0 {
      var c := s[0];
      if c == ',' && !st.inQuotes {
        TrimNoneOf(st.current, IsQuote);
        TrimIdempotent(st.current);
      }
      ToggleRunKeepsClean(ToggleStep(st, c), s[1..]);
    }
  }

  lemma {:induction false} ToggleRunConcat(st: ToggleState, a: string, b: string)
    ensures ToggleRun(st, a + b) == ToggleRun(ToggleRun(st, a), b)
    decreases |a|
  {
    if |a| > 0 {
      assert (a + b)[1..] == a[1..] + b;
      ToggleRunConcat(ToggleStep(st, a[0]), a[1..], b);
    } else {
      assert a + b == b;
    }
  }

  /** Characters other than quotes, and other than commas outside quotes, are
      appended to the current value. */
  lemma {:induction false} ToggleRunPlain(st: ToggleState, s: string)
    requires NoneOf(s, IsQuote) && (st.inQuotes || NoneOf(s, IsComma))
    ensures ToggleRun(st, s) == st.(current := st.current + s)
    decreases |s|
  {
    if |s| > 0 {
      ToggleRunPlain(ToggleStep(st, s[0]), s[1..]);
      assert st.current + s == st.current + [s[0]] + s[1..];
    } else {
      assert st.current + s == st.current;
    }
  }

  /** Inside quotes a doubled quote toggles twice, so it vanishes. */
  lemma {:induction false} ToggleRunDoubled(st: ToggleState, v: string)
    requires st.inQuotes
    ensures ToggleRun(st, DoubleQuotes(v)) == st.(current := st.current + Filter(v, IsNotQuote))
    decreases |v|
  {
    if |v| == 0 {
      assert st.current + Filter(v, IsNotQuote) == st.current;
    } else {
      var head := if v[0] == '"' then "\"\"" else [v[0]];
      assert DoubleQuotes(v) == head + DoubleQuotes(v[1..]);
      ToggleRunConcat(st, head, DoubleQuotes(v[1..]));
      ToggleDoubledHead(st, v[0]);
      var kept := if v[0] == '"' then "" else [v[0]];
      var mid := st.(current := st.current + kept);
      ToggleRunDoubled(mid, v[1..]);
      assert Filter(v, IsNotQuote) == kept + Filter(v[1..], IsNotQuote);
      assert st.current + kept + Filter(v[1..], IsNotQuote) == st.current + Filter(v, IsNotQuote);
    }
  }

  /** One character of a doubled value read inside quotes: a doubled quote toggles
      twice and vanishes, anything else is appended. */
  lemma {:induction false} ToggleDoubledHead(st: ToggleState, c: char)
    requires st.inQuotes
    ensures ToggleRun(st, if c == '"' then "\"\"" else [c]) == st.(current := st.current + (if c == '"' then "" else [c]))
  {
    if c == '"' {
      var q := "\"\"";
      assert q[0] == '"' && q[1..] == "\"" && q[1..][1..] == "";
      assert ToggleRun(st, q) == ToggleRun(ToggleStep(st, '"'), "\"");
      assert st.current + "" == st.current;
    } else {
      assert [c][1..] == "";
    }
  }

  /** An escaped field read from outside quotes appends the value with its quotes
      removed and leaves the loop outside quotes. */
  lemma {:induction false} ToggleRunEscaped(st: ToggleState, v: string)
    requires !st.inQuotes
    ensures ToggleRun(st, EscapeField(v)) == st.(current := st.current + Filter(v, IsNotQuote))
  {
    if NeedsQuoting(v) {
      var open := st.(inQuotes := true);
      ToggleRunConcat(st, "\"" + DoubleQuotes(v), "\"");
      ToggleRunConcat(st, "\"", DoubleQuotes(v));
      ToggleRunDoubled(open, v);
    } else {
      ToggleRunPlain(st, v);
    }
  }

  /** What an exported value reads back as: its quotes dropped, then trimmed. */
  function Cleaned(v: string): string {
    Trim(Filter(v, IsNotQuote))
  }

  function CleanedAll(vs: seq<string>): (r: seq<string>)
    ensures |r| == |vs|
  {
    if |vs| == 0 then [] else [Cleaned(vs[0])] + CleanedAll(vs[1..])
  }

  lemma {:induction false} CleanedAllAt(vs: seq<string>)
    ensures forall k :: 0 <= k < |vs| ==> CleanedAll(vs)[k] == Cleaned(vs[k])
  {
    if |vs| > 0 {
      CleanedAllAt(vs[1..]);
    }
  }

  function EscapedAll(vs: seq<string>): (r: seq<string>)
    ensures |r| == |vs|
    ensures forall k :: 0 <= k < |vs| ==> r[k] == EscapeField(vs[k])
  {
    if |vs| == 0 then [] else [EscapeField(vs[0])] + EscapedAll(vs[1..])
  }

  /** One exported line: the escaped values joined by commas. */
  function Line(vs: seq<string>): string {
    Join(EscapedAll(vs), ",")
  }

  /** The loop state after an exported line, value by value. */
  function ToggleLineState(vals: seq<string>, vs: seq<string>): ToggleState
    requires |vs| >= 1
    decreases |vs|
  {
    if |vs| == 1 then ToggleState(false, Filter(vs[0], IsNotQuote), vals)
    else ToggleLineState(vals + [Cleaned(vs[0])], vs[1..])
  }

  lemma {:induction false} ToggleRunLine(vals: seq<string>, vs: seq<string>)
    requires |vs| >= 1
    ensures ToggleRun(ToggleState(false, "", vals), Line(vs)) == ToggleLineState(vals, vs)
    decreases |vs|
  {
    var st := ToggleState(false, "", vals);
    if |vs| == 1 {
      LineSingle(vs);
      ToggleRunEscaped(st, vs[0]);
    } else {
      var e0 := EscapeField(vs[0]);
      LineCons(vs);
      ToggleRunConcat(st, e0 + ",", Line(vs[1..]));
      ToggleRunFirstField(vals, vs[0]);
      ToggleRunLine(vals + [Cleaned(vs[0])], vs[1..]);
    }
  }

  lemma {:induction false} ToggleRunFirstField(vals: seq<string>, v: string)
    ensures ToggleRun(ToggleState(false, "", vals), EscapeField(v) + ",") == ToggleState(false, "", vals + [Cleaned(v)])
  {
    var st := ToggleState(false, "", vals);
    ToggleRunConcat(st, EscapeField(v), ",");
    ToggleRunEscaped(st, v);
    assert "" + Filter(v, IsNotQuote) == Filter(v, IsNotQuote);
  }

  lemma {:induction false} LineSingle(vs: seq<string>)
    requires |vs| == 1
    ensures Line(vs) == EscapeField(vs[0])
  {
  }

  lemma {:induction false} LineCons(vs: seq<string>)
    requires |vs| >= 2
    ensures Line(vs) == EscapeField(vs[0]) + "," + Line(vs[1..])
  {
    assert EscapedAll(vs)[1..] == EscapedAll(vs[1..]);
  }

  lemma {:induction false} ToggleLineValues(vals: seq<string>, vs: seq<string>)
    requires |vs| >= 1
    ensures ToggleLineState(vals, vs).values + [Trim(ToggleLineState(vals, vs).current)] == vals + CleanedAll(vs)
    decreases |vs|
  {
    if |vs| > 1 {
      ToggleLineValues(vals + [Cleaned(vs[0])], vs[1..]);
    }
  }

  /** Reading back an exported line as written, with the carriage return a CRLF file
      leaves at its end or without it, gives each value with every quote dropped and
      trimmed: a quote in a value does not survive the round trip. */
  lemma {:induction false} ReimportLineAsWritten(vs: seq<string>, tail: string)
    requires |vs| >= 1 && (tail == "" || tail == "\r")
    ensures ParseRowAsWritten(Line(vs) + tail) == CleanedAll(vs)
  {
    var st := ToggleLineState([], vs);
    ToggleLineTail(vs, tail);
    if tail == "\r" {
      TrimTrailingSpace(st.current, '\r');
    } else {
      assert st.current + tail == st.current;
    }
    ToggleLineValues([], vs);
  }

  /** After an exported line and its optional carriage return, the loop as written
      holds the state the line leaves, with the carriage return appended. */
  lemma {:induction false} ToggleLineTail(vs: seq<string>, tail: string)
    requires |vs| >= 1 && (tail == "" || tail == "\r")
    ensures ToggleRun(ToggleState(false, "", []), Line(vs) + tail)
      == ToggleLineState([], vs).(current := ToggleLineState([], vs).current + tail)
  {
    var st0 := ToggleState(false, "", []);
    ToggleRunConcat(st0, Line(vs), tail);
    ToggleRunLine([], vs);
    ToggleRunPlain(ToggleLineState([], vs), tail);
  }

  /** `value.replace(/^"(.*)"$/, '$1')`, applied as written to every value. */
  function StripOuterQuotes(v: string): string {
    if |v| >= 2 && v[0] == '"' && v[|v| - 1] == '"' && NoneOf(v[1..|v| - 1], IsLineTerminator) then v[1..|v| - 1]
    else v
  }

  /** The values that reach the entry as written: the loop's values, each passed
      through the quote-stripping `replace`. */
  function ValuesAsWritten(line: string): (r: seq<string>)
    ensures r == ParseRowAsWritten(line)
  {
    var vs := ParseRowAsWritten(line);
    var r := seq(|vs|, k requires 0 <= k < |vs| => StripOuterQuotes(vs[k]));
    assert forall k :: 0 <= k < |vs| ==> r[k] == vs[k] by {
      forall k | 0 <= k < |vs| ensures r[k] == vs[k] {
        assert CleanValue(vs[k]);
        if |vs[k]| >= 2 {
          assert !IsQuote(vs[k][0]);
        }
      }
    }
    r
  }

  /** A value with a quote in it is exported with the quote doubled inside a quoted
      field, which section 2 of RFC 4180 would read back as the value itself. */
  lemma {:induction false} QuoteEscaped(v: string)
    requires v == "a\"b"
    ensures EscapeField(v) == "\"a\"\"b\""
    ensures UnescapeField(EscapeField(v)) == v
  {
    assert '"' in v;
    assert DoubleQuotes(v) == "a\"\"b" by {
      assert v[0] == 'a' && v[1..] == "\"b" && v[1..][1..] == "b";
      assert DoubleQuotes("b") == "b";
      assert DoubleQuotes("\"b") == "\"\"b";
    }
    EscapeRoundTrip(v);
  }

  /** The same value comes back from the import loop as written without its quote. */
  lemma {:induction false} QuoteLostAsWritten(v: string)
    requires v == "a\"b"
    ensures ValuesAsWritten(Line([v])) == ["ab"]
  {
    SingleValueAsWritten(v);
    QuoteDropped(v);
  }

  /** A line of one exported value reads back, as written, as that value cleaned. */
  lemma {:induction false} SingleValueAsWritten(v: string)
    ensures ValuesAsWritten(Line([v])) == [Cleaned(v)]
  {
    ReimportLineAsWritten([v], "");
    assert Line([v]) + "" == Line([v]);
    assert CleanedAll([v]) == [Cleaned(v)];
  }

  lemma {:induction false} QuoteDropped(v: string)
    requires v == "a\"b"
    ensures Cleaned(v) == "ab"
  {
    var b := v[1..][1..];
    assert b == "b" && b[1..] == "";
    assert Filter(b, IsNotQuote) == "b";
    assert Filter(v[1..], IsNotQuote) == "b";
    assert Filter(v, IsNotQuote) == "ab";
    assert !IsSpace('a') && !IsSpace('b');
  }

  // ---------------------------------------------------------------- parseCSV: one row, corrected

  /** Where the corrected loop is: outside quotes, inside them, or just after a quote
      met inside them, which either closes the quoted part or, followed by a second
      quote, stands for one quote character. */
  datatype Mode = Outside | Inside | AfterQuote

  datatype Reader = Reader(mode: Mode, current: string, values: seq<string>)

  function ReadOutside(st: Reader, c: char): Reader {
    if c == '"' then st.(mode := Inside)
    else if c == ',' then Reader(Outside, "", st.values + [Trim(st.current)])
    else Reader(Outside, st.current + [c], st.values)
  }

  /** One character of the loop that reads fields the way section 2 of RFC 4180 writes
      them. */
  function ReadChar(st: Reader, c: char): Reader {
    match st.mode
    case Inside => if c == '"' then st.(mode := AfterQuote) else st.(current := st.current + [c])
    case AfterQuote => if c == '"' then Reader(Inside, st.current + "\"", st.values) else ReadOutside(st, c)
    case Outside => ReadOutside(st, c)
  }

  function Read(st: Reader, s: string): Reader
    decreases |s|
  {
    if |s| == 0 then st else Read(ReadChar(st, s[0]), s[1..])
  }

  /** No value has white space at either end. */
  predicate AllTrimmed(xs: seq<string>) { forall k :: 0 <= k < |xs| ==> Trim(xs[k]) == xs[k] }

  /** The values of one line of the file, each trimmed. */
  function ParseRow(line: string): (values: seq<string>)
    ensures |values| >= 1 && AllTrimmed(values)
  {
    var st := Read(Reader(Outside, "", []), line);
    ReadKeepsTrimmed(Reader(Outside, "", []), line);
    PushTrimmed(st.values, st.current);
    st.values + [Trim(st.current)]
  }

  /** Pushing a trimmed value keeps every value trimmed. */
  lemma {:induction false} PushTrimmed(xs: seq<string>, v: string)
    requires AllTrimmed(xs)
    ensures AllTrimmed(xs + [Trim(v)])
  {
    TrimIdempotent(v);
  }

  lemma {:induction false} ReadKeepsTrimmed(st: Reader, s: string)
    requires AllTrimmed(st.values)
    ensures AllTrimmed(Read(st, s).values)
    decreases |s|
  {
    if |s| > 0 {
      PushTrimmed(st.values, st.current);
      ReadKeepsTrimmed(ReadChar(st, s[0]), s[1..]);
    }
  }

  lemma {:induction false} ReadConcat(st: Reader, a: string, b: string)
    ensures Read(st, a + b) == Read(Read(st, a), b)
    decreases |a|
  {
    if |a| > 0 {
      assert (a + b)[1..] == a[1..] + b;
      ReadConcat(ReadChar(st, a[0]), a[1..], b);
    } else {
      assert a + b == b;
    }
  }

  lemma {:induction false} ReadPlain(st: Reader, s: string)
    requires st.mode != Inside && NoneOf(s, IsQuote) && NoneOf(s, IsComma)
    ensures Read(st, s).current == st.current + s && Read(st, s).values == st.values
    ensures Read(st, s).mode != Inside
    decreases |s|
  {
    if |s| > 0 {
      ReadPlain(ReadChar(st, s[0]), s[1..]);
      assert st.current + s == st.current + [s[0]] + s[1..];
    } else {
      assert st.current + s == st.current;
    }
  }

  lemma {:induction false} ReadDoubled(st: Reader, v: string)
    requires st.mode == Inside
    ensures Read(st, DoubleQuotes(v)) == st.(current := st.current + v)
    decreases |v|
  {
    if |v| == 0 {
      assert st.current + v == st.current;
    } else {
      var head := if v[0] == '"' then "\"\"" else [v[0]];
      ReadConcat(st, head, DoubleQuotes(v[1..]));
      var mid := Read(st, head);
      if v[0] == '"' {
        var q := "\"\"";
        assert q[0] == '"' && q[1..] == "\"" && q[1..][1..] == "";
        assert Read(st, q) == Read(ReadChar(st, '"'), "\"");
        assert mid == st.(current := st.current + [v[0]]);
      } else {
        assert mid == st.(current := st.current + [v[0]]);
      }
      ReadDoubled(mid, v[1..]);
      assert st.current + [v[0]] + v[1..] == st.current + v;
    }
  }

  /** An escaped field read from outside quotes appends exactly the value. */
  lemma {:induction false} ReadEscaped(st: Reader, v: string)
    requires st.mode == Outside
    ensures Read(st, EscapeField(v)).current == st.current + v
    ensures Read(st, EscapeField(v)).values == st.values
    ensures Read(st, EscapeField(v)).mode != Inside
  {
    if NeedsQuoting(v) {
      var open := st.(mode := Inside);
      ReadConcat(st, "\"" + DoubleQuotes(v), "\"");
      ReadConcat(st, "\"", DoubleQuotes(v));
      ReadDoubled(open, v);
    } else {
      ReadPlain(st, v);
    }
  }

  /** The values the corrected loop has pushed after an exported line. */
  function LineValues(vals: seq<string>, vs: seq<string>): seq<string>
    requires |vs| >= 1
    decreases |vs|
  {
    if |vs| == 1 then vals else LineValues(vals + [Trim(vs[0])], vs[1..])
  }

  /** What the corrected loop holds after an exported line: the values before the
      last one pushed, the last one still current, and no quoted part left open. */
  predicate LineRead(r: Reader, vals: seq<string>, vs: seq<string>)
    requires |vs| >= 1
  {
    r.values == LineValues(vals, vs) && r.current == vs[|vs| - 1] && r.mode != Inside
  }

  lemma {:induction false} ReadLine(vals: seq<string>, vs: seq<string>)
    requires |vs| >= 1
    ensures LineRead(Read(Reader(Outside, "", vals), Line(vs)), vals, vs)
    decreases |vs|
  {
    if |vs| == 1 {
      ReadLineOne(vals, vs);
    } else {
      ReadLine(vals + [Trim(vs[0])], vs[1..]);
      ReadLineCons(vals, vs);
    }
  }

  lemma {:induction false} ReadLineCons(vals: seq<string>, vs: seq<string>)
    requires |vs| >= 2
    requires LineRead(Read(Reader(Outside, "", vals + [Trim(vs[0])]), Line(vs[1..])), vals + [Trim(vs[0])], vs[1..])
    ensures LineRead(Read(Reader(Outside, "", vals), Line(vs)), vals, vs)
  {
    ReadLineStep(vals, vs);
    LineReadCons(Read(Reader(Outside, "", vals + [Trim(vs[0])]), Line(vs[1..])), vals, vs);
  }

  /** What holds after the rest of a line, with the first value pushed, holds after the whole line. */
  lemma {:induction false} LineReadCons(r: Reader, vals: seq<string>, vs: seq<string>)
    requires |vs| >= 2
    requires LineRead(r, vals + [Trim(vs[0])], vs[1..])
    ensures LineRead(r, vals, vs)
  {
    assert LineValues(vals, vs) == LineValues(vals + [Trim(vs[0])], vs[1..]);
    assert vs[1..][|vs| - 2] == vs[|vs| - 1];
  }

  lemma {:induction false} ReadLineStep(vals: seq<string>, vs: seq<string>)
    requires |vs| >= 2
    ensures Read(Reader(Outside, "", vals), Line(vs)) == Read(Reader(Outside, "", vals + [Trim(vs[0])]), Line(vs[1..]))
  {
    var st := Reader(Outside, "", vals);
    LineCons(vs);
    ReadConcat(st, EscapeField(vs[0]) + ",", Line(vs[1..]));
    ReadFirstField(vals, vs[0]);
  }

  lemma {:induction false} ReadLineOne(vals: seq<string>, vs: seq<string>)
    requires |vs| == 1
    ensures Read(Reader(Outside, "", vals), Line(vs)) == Read(Reader(Outside, "", vals), EscapeField(vs[0]))
    ensures Read(Reader(Outside, "", vals), Line(vs)).values == vals
    ensures Read(Reader(Outside, "", vals), Line(vs)).current == vs[0]
    ensures Read(Reader(Outside, "", vals), Line(vs)).mode != Inside
  {
    LineSingle(vs);
    ReadEscaped(Reader(Outside, "", vals), vs[0]);
    assert "" + vs[0] == vs[0];
  }

  lemma {:induction false} ReadFirstField(vals: seq<string>, v: string)
    ensures Read(Reader(Outside, "", vals), EscapeField(v) + ",") == Reader(Outside, "", vals + [Trim(v)])
  {
    var st := Reader(Outside, "", vals);
    ReadConcat(st, EscapeField(v), ",");
    ReadEscaped(st, v);
    var m := Read(st, EscapeField(v));
    assert m.current == v by {
      assert "" + v == v;
    }
    assert Read(m, ",") == ReadChar(m, ',') by {
      assert ","[1..] == "";
    }
    assert ReadChar(m, ',') == ReadOutside(m, ',');
  }

  lemma {:induction false} LineValuesAll(vals: seq<string>, vs: seq<string>)
    requires |vs| >= 1
    ensures LineValues(vals, vs) + [Trim(vs[|vs| - 1])] == vals + TrimEach(vs)
    decreases |vs|
  {
    if |vs| > 1 {
      LineValuesAll(vals + [Trim(vs[0])], vs[1..]);
    }
  }

  /** Reading back an exported line, with or without the carriage return a CRLF file
      leaves at its end, gives every value back, trimmed. */
  lemma {:induction false} ReimportLine(vs: seq<string>, tail: string)
    requires |vs| >= 1 && (tail == "" || tail == "\r")
    ensures ParseRow(Line(vs) + tail) == TrimEach(vs)
  {
    var last := vs[|vs| - 1];
    ReadLineTail(vs, tail);
    if tail == "\r" {
      TrimTrailingSpace(last, '\r');
    } else {
      assert last + tail == last;
    }
    LineValuesAll([], vs);
    assert [] + TrimEach(vs) == TrimEach(vs);
  }

  /** After an exported line and its optional carriage return, the reader holds the
      values before the last one and the last one followed by the carriage return. */
  lemma {:induction false} ReadLineTail(vs: seq<string>, tail: string)
    requires |vs| >= 1 && (tail == "" || tail == "\r")
    ensures Read(Reader(Outside, "", []), Line(vs) + tail).values == LineValues([], vs)
    ensures Read(Reader(Outside, "", []), Line(vs) + tail).current == vs[|vs| - 1] + tail
  {
    var st0 := Reader(Outside, "", []);
    ReadConcat(st0, Line(vs), tail);
    ReadLine([], vs);
    ReadPlain(Read(st0, Line(vs)), tail);
  }

  // ---------------------------------------------------------------- reading a data line

  /** How a data line is split into values: by the character loop as written, or by
      the corrected reader that follows section 2 of RFC 4180. */
  datatype Reading = AsWritten | Rfc4180

  /** What each value read from a line is like: as written it holds no quote and is
      trimmed; the corrected reader only trims. */
  predicate ReadValue(how: Reading, v: string) {
    match how
    case AsWritten => CleanValue(v)
    case Rfc4180 => Trim(v) == v
  }

  /** The values of one data line as they reach the entry. As written, each value also
      passes through `replace(/^"(.*)"$/, '$1')`, which finds no quote left to strip;
      the corrected reader has already removed the enclosing quotes, so it leaves the
      `replace` out. */
  function ReadRow(how: Reading, line: string): (values: seq<string>)
    ensures |values| >= 1
    ensures forall k :: 0 <= k < |values| ==> ReadValue(how, values[k])
  {
    match how
    case AsWritten => ValuesAsWritten(line)
    case Rfc4180 => ParseRow(line)
  }

  /** What one exported value reads back as. */
  function ReadBack(how: Reading, v: string): string {
    match how
    case AsWritten => Cleaned(v)
    case Rfc4180 => Trim(v)
  }

  function ReadBackAll(how: Reading, vs: seq<string>): (r: seq<string>)
    ensures |r| == |vs| && forall k :: 0 <= k < |vs| ==> r[k] == ReadBack(how, vs[k])
  {
    if |vs| == 0 then [] else [ReadBack(how, vs[0])] + ReadBackAll(how, vs[1..])
  }

  /** An exported line, with or without the carriage return a CRLF file leaves at its
      end, reads back value by value: as written every quote is lost, and in both
      readings each value is trimmed. */
  lemma {:induction false} ReimportRow(how: Reading, vs: seq<string>, tail: string)
    requires |vs| >= 1 && (tail == "" || tail == "\r")
    ensures ReadRow(how, Line(vs) + tail) == ReadBackAll(how, vs)
  {
    match how
    case AsWritten =>
      ReimportLineAsWritten(vs, tail);
      CleanedAllAt(vs);
    case Rfc4180 =>
      ReimportLine(vs, tail);
  }

  /** A value without a quote reads back the same way in both readings. */
  lemma {:induction false} QuoteFreeReadsAlike(v: string)
    requires NoneOf(v, IsQuote)
    ensures ReadBack(AsWritten, v) == ReadBack(Rfc4180, v)
  {
    assert forall i :: 0 <= i < |v| ==> IsNotQuote(v[i]);
    assert Filter(v, IsNotQuote) == v;
  }

  // ---------------------------------------------------------------- convertToCSV

  /** The values `convertToCSV` writes for one entry, column by column. */
  function Values(o: Obj): (vs: seq<string>)
    ensures |vs| == |Columns| && forall k :: 0 <= k < |vs| ==> vs[k] == FieldOf(o, Columns[k])
  {
    [FieldOf(o, "phoneNumber"), FieldOf(o, "vendorId"), FieldOf(o, "vendorName"),
     FieldOf(o, "vendorPhonetic"), FieldOf(o, "vendorIndustry"), FieldOf(o, "timestamp")]
  }

  function RowLines(data: seq<Obj>): (r: seq<string>)
    ensures |r| == |data| && forall i :: 0 <= i < |data| ==> r[i] == Line(Values(data[i]))
  {
    if |data| == 0 then [] else [Line(Values(data[0]))] + RowLines(data[1..])
  }

  /** `convertToCSV(data)`: nothing for no data; otherwise the header line and one
      line per entry, joined by CRLF. */
  function ConvertToCsv(data: seq<Obj>): (csv: string)
    ensures csv == "" <==> |data| == 0
    ensures |data| > 0 ==> |Line(Columns)| <= |csv| && csv[..|Line(Columns)|] == Line(Columns)
  {
    if |data| == 0 then ""
    else
      var parts := [Line(Columns)] + RowLines(data);
      JoinStarts(parts, "\r\n");
      HeaderNotEmpty();
      Join(parts, "\r\n")
  }

  /** The header line has a character: its first column name is not empty. */
  lemma {:induction false} HeaderNotEmpty()
    ensures |Line(Columns)| > 0
  {
    var first := EscapeField(Columns[0]);
    assert |Columns[0]| > 0;
    assert |first| > 0;
    JoinStarts(EscapedAll(Columns), ",");
  }

  // ---------------------------------------------------------------- parseCSV: the file

  /** The header aliases `parseCSV` accepts, each mapped to its field name. */
  const HeaderMap: map<string, string> := map[
    "phonenumber" := "phoneNumber", "phone_number" := "phoneNumber", "phone" := "phoneNumber", "tel" := "phoneNumber",
    "vendorid" := "vendorId", "vendor_id" := "vendorId", "id" := "vendorId",
    "vendorname" := "vendorName", "vendor_name" := "vendorName", "name" := "vendorName",
    "vendorphonetic" := "vendorPhonetic", "vendor_phonetic" := "vendorPhonetic", "phonetic" := "vendorPhonetic",
    "vendorindustry" := "vendorIndustry", "vendor_industry" := "vendorIndustry", "industry" := "vendorIndustry"]

  /** The columns a file must have, under one of their aliases. */
  const Required: seq<string> := ["phonenumber", "vendorid", "vendorname"]

  datatype CsvError =
    | TooFewLines                     // no header line and data line
    | MissingColumns(names: seq<string>)
    | BadFieldCount(lineNumber: nat)  // the row index in the non-blank rows, plus 2

  /** The header line with one leading byte-order mark (U+FEFF) removed. */
  function StripBom(s: string): string {
    if |s| > 0 && s[0] == '\U{FEFF}' then s[1..] else s
  }


  function LowerEach(xs: seq<string>): (r: seq<string>)
    ensures |r| == |xs|
    ensures forall k :: 0 <= k < |xs| ==> r[k] == ToLower(xs[k])
  {
    if |xs| == 0 then [] else [ToLower(xs[0])] + LowerEach(xs[1..])
  }

  /** The header names: the first line without a byte-order mark, lower-cased, split
      on commas, each trimmed. */
  function Headers(line: string): seq<string> {
    TrimEach(Split(ToLower(StripBom(line)), IsComma))
  }

  /** Whether a required column is among the headers, under its own name or another
      alias of the same field. */
  predicate HeaderFound(found: seq<string>, req: string) {
    exists j :: 0 <= j < |found| &&
      (found[j] == req || (found[j] in HeaderMap && req in HeaderMap && HeaderMap[found[j]] == HeaderMap[req]))
  }

  function MissingHeaders(headers: seq<string>): (missing: seq<string>)
    ensures forall r :: r in missing <==> r in Required && !HeaderFound(LowerEach(headers), r)
  {
    var found := LowerEach(headers);
    Select(Required, r => !HeaderFound(found, r))
  }

  /** `headerMap[header.toLowerCase()] || header`. */
  function Key(h: string): string {
    var l := ToLower(h);
    if l in HeaderMap then HeaderMap[l] else h
  }


  /** The field name of each header. */
  function KeysOf(hs: seq<string>): (ks: seq<string>)
    ensures |ks| == |hs| && forall k :: 0 <= k < |hs| ==> ks[k] == Key(hs[k])
  {
    if |hs| == 0 then [] else [Key(hs[0])] + KeysOf(hs[1..])
  }

  /** The `forEach` over the headers, with each header already replaced by its field
      name: each value is stored under its field, a later column overwriting an
      earlier one with the same name. */
  function Assign(o: Obj, ks: seq<string>, vs: seq<string>): Obj
    requires |ks| == |vs|
    decreases |ks|
  {
    if |ks| == 0 then o else Assign(o[ks[0] := vs[0]], ks[1..], vs[1..])
  }

  /** Every field `Assign` sets holds one of the values, and every other field keeps
      its value. */
  lemma {:induction false} AssignFrom(o: Obj, ks: seq<string>, vs: seq<string>)
    requires |ks| == |vs|
    ensures forall f :: f in Assign(o, ks, vs) ==> (f in o && Assign(o, ks, vs)[f] == o[f]) || Assign(o, ks, vs)[f] in vs
    decreases |ks|
  {
    if |ks| > 0 {
      AssignFrom(o[ks[0] := vs[0]], ks[1..], vs[1..]);
      assert forall v :: v in vs[1..] ==> v in vs;
    }
  }

  /** The entry built from one row; a missing or empty timestamp becomes `now`. */
  function BuildEntry(headers: seq<string>, values: seq<string>, now: string): (e: Obj)
    requires |values| == |headers|
    ensures "timestamp" in e && (now != "" ==> e["timestamp"] != "")
    ensures forall f :: f in e ==> e[f] in values || (f == "timestamp" && e[f] == now)
  {
    var o := Assign(map[], KeysOf(headers), values);
    AssignFrom(map[], KeysOf(headers), values);
    if FieldOf(o, "timestamp") == "" then o["timestamp" := now] else o
  }

  predicate NonBlankLine(line: string) { Trim(line) != "" }

  function ParseRows(how: Reading, rows: seq<string>): (r: seq<seq<string>>)
    ensures |r| == |rows| && forall i :: 0 <= i < |rows| ==> r[i] == ReadRow(how, rows[i])
  {
    if |rows| == 0 then [] else [ReadRow(how, rows[0])] + ParseRows(how, rows[1..])
  }

  /** The `map` over the data rows, each already split into values: the first row
      whose value count differs from the header count aborts the whole import.
      `k` is the index of the first row in the non-blank rows. */
  function BuildEntries(rows: seq<seq<string>>, headers: seq<string>, now: string, k: nat): (r: Result<seq<Obj>, CsvError>)
    ensures r.Ok? <==> forall i :: 0 <= i < |rows| ==> |rows[i]| == |headers|
    ensures r.Err? ==> r.error.BadFieldCount?
    ensures r.Ok? ==> (|r.value| == |rows|
      && forall i :: 0 <= i < |rows| ==> r.value[i] == BuildEntry(headers, rows[i], now))
    decreases |rows|
  {
    if |rows| == 0 then Ok([])
    else if |rows[0]| != |headers| then Err(BadFieldCount(k + 2))
    else
      var rest := BuildEntries(rows[1..], headers, now, k + 1);
      if rest.Err? then Err(rest.error)
      else Ok([BuildEntry(headers, rows[0], now)] + rest.value)
  }

  /** The error names the first row with the wrong number of values, counting the
      header as line 1 and skipping blank lines. */
  lemma {:induction false} FirstBadRowReported(rows: seq<seq<string>>, headers: seq<string>, now: string, k: nat, i: nat)
    requires i < |rows| && |rows[i]| != |headers|
    requires forall j :: 0 <= j < i ==> |rows[j]| == |headers|
    ensures BuildEntries(rows, headers, now, k) == Err(BadFieldCount(k + i + 2))
    decreases i
  {
    if i > 0 {
      assert |rows[0]| == |headers|;
      FirstBadRowReported(rows[1..], headers, now, k + 1, i - 1);
    }
  }

  /** Every field of an imported entry holds a value read from its row, or `now` in
      the timestamp. */
  predicate EntryRead(how: Reading, e: Obj, now: string) {
    forall f :: f in e ==> ReadValue(how, e[f]) || (f == "timestamp" && e[f] == now)
  }

  lemma {:induction false} EntriesRead(how: Reading, rows: seq<seq<string>>, headers: seq<string>, now: string, es: seq<Obj>)
    requires forall i :: 0 <= i < |rows| ==> forall k :: 0 <= k < |rows[i]| ==> ReadValue(how, rows[i][k])
    requires |es| == |rows|
    requires forall i :: 0 <= i < |rows| ==> |rows[i]| == |headers| && es[i] == BuildEntry(headers, rows[i], now)
    ensures forall i :: 0 <= i < |es| ==> EntryRead(how, es[i], now)
  {
    forall i | 0 <= i < |es| ensures EntryRead(how, es[i], now) {
      var e := es[i];
      forall f | f in e ensures ReadValue(how, e[f]) || (f == "timestamp" && e[f] == now) {
        if e[f] in rows[i] {
          var k :| 0 <= k < |rows[i]| && rows[i][k] == e[f];
        }
      }
    }
  }

  /** `parseCSV` once the text is trimmed and split into lines: at least a header
      line and a data line, every required column under some alias, and then the
      rows, each read the way `how` says. */
  function ParseLines(how: Reading, lines: seq<string>, now: string): (r: Result<seq<Obj>, CsvError>)
    ensures r == Err(TooFewLines) <==> |lines| < 2
    ensures r.Err? && r.error.MissingColumns? ==> |lines| >= 2 && |r.error.names| > 0
    ensures r.Err? && r.error.MissingColumns? ==>
      (forall n :: n in r.error.names <==> n in Required && !HeaderFound(LowerEach(Headers(lines[0])), n))
    ensures r.Ok? ==> |lines| >= 2 && forall req :: req in Required ==> HeaderFound(LowerEach(Headers(lines[0])), req)
  {
    if |lines| < 2 then Err(TooFewLines)
    else
      var headers := Headers(lines[0]);
      var missing := MissingHeaders(headers);
      if |missing| > 0 then Err(MissingColumns(missing))
      else
        var rows := ParseRows(how, Select(lines[1..], NonBlankLine));
        var r := BuildEntries(rows, headers, now, 0);
        assert forall req :: req in Required ==> HeaderFound(LowerEach(headers), req) by {
          forall req | req in Required ensures HeaderFound(LowerEach(headers), req) {
            assert req !in missing;
          }
        }
        r
  }

  /** Every entry `parseCSV` builds holds only values its reading yields, and `now`. */
  lemma {:induction false} ParsedEntriesRead(how: Reading, lines: seq<string>, now: string)
    ensures ParseLines(how, lines, now).Ok? ==>
      forall i :: 0 <= i < |ParseLines(how, lines, now).value| ==> EntryRead(how, ParseLines(how, lines, now).value[i], now)
  {
    var r := ParseLines(how, lines, now);
    if r.Ok? {
      var headers := Headers(lines[0]);
      var rows := ParseRows(how, Select(lines[1..], NonBlankLine));
      assert r == BuildEntries(rows, headers, now, 0);
      EntriesRead(how, rows, headers, now, r.value);
    }
  }

  /** `parseCSV(csvText)` as written, with `now` the ISO time a row without a
      timestamp gets: the text is trimmed and split at line feeds, and no value of an
      imported entry holds a quote. */
  function ParseCsv(text: string, now: string): (r: Result<seq<Obj>, CsvError>)
    ensures r == Err(TooFewLines) <==> NoneOf(Trim(text), IsLineFeed)
    ensures r.Ok? ==> forall i :: 0 <= i < |r.value| ==> EntryRead(AsWritten, r.value[i], now)
  {
    ParsedEntriesRead(AsWritten, Split(Trim(text), IsLineFeed), now);
    ParseLines(AsWritten, Split(Trim(text), IsLineFeed), now)
  }

  /** `parseCSV` with the corrected reader: the same checks, and every value of an
      imported entry trimmed. */
  function ParseCsvCorrected(text: string, now: string): (r: Result<seq<Obj>, CsvError>)
    ensures r == Err(TooFewLines) <==> NoneOf(Trim(text), IsLineFeed)
    ensures r.Ok? ==> forall i :: 0 <= i < |r.value| ==> EntryRead(Rfc4180, r.value[i], now)
  {
    ParsedEntriesRead(Rfc4180, Split(Trim(text), IsLineFeed), now);
    ParseLines(Rfc4180, Split(Trim(text), IsLineFeed), now)
  }
}
