/** The popup's upload handler end to end: the file text is read as CSV, the
    entries are validated, and the new ones are appended to the stored list; the
    handler reports how many it added. */
module BackupUpload {
  import opened Wrappers
  import opened JsString
  import opened BackupCsv
  import opened BackupImport
  import opened BackupRoundTrip

  /** Why an upload is refused; the stored list is then left as it is. */
  datatype UploadError =
    | Unreadable(csvError: CsvError)
    | NoData
    | Invalid(validationError: ValidationError)

  /** The stored list after an upload, and the count the feedback message shows. */
  datatype Uploaded = Uploaded(entries: seq<Obj>, added: nat)

  /** The handler once the file has yielded `entries`: an empty list is refused,
      then every entry is validated, and the entries whose key is not stored yet
      are appended. */
  function Accept(existing: seq<Obj>, entries: seq<Obj>, now: string): (r: Result<Uploaded, UploadError>)
    ensures r.Ok? <==> |entries| > 0 && AllValid(entries)
    ensures r.Ok? ==> |existing| <= |r.value.entries| && r.value.entries[..|existing|] == existing
    ensures r.Ok? ==> r.value.added == |r.value.entries| - |existing|
    ensures r.Ok? ==> forall x :: x in r.value.entries[|existing|..] ==> !Stored(existing, x)
    ensures r.Ok? ==> (ValidateEntries(entries, now).Ok?
      && r.value.entries == Merge(existing, ValidateEntries(entries, now).value))
  {
    if |entries| == 0 then Err(NoData)
    else
      match ValidateEntries(entries, now)
      case Err(e) => Err(Invalid(e))
      case Ok(valid) =>
        var added := NewEntries(existing, valid);
        assert (existing + added)[|existing|..] == added;
        Ok(Uploaded(existing + added, |added|))
  }

  /** The upload of a file's text into the stored list `existing`, with `now` the
      upload time. */
  function Upload(existing: seq<Obj>, content: string, now: string): (r: Result<Uploaded, UploadError>)
    ensures r.Err? && r.error.Unreadable? <==> ParseCsv(content, now).Err?
    ensures ParseCsv(content, now).Ok? ==> r == Accept(existing, ParseCsv(content, now).value, now)
    ensures r.Ok? ==> (ParseCsv(content, now).Ok? && ValidateEntries(ParseCsv(content, now).value, now).Ok?
      && r.value.entries == Merge(existing, ValidateEntries(ParseCsv(content, now).value, now).value))
  {
    match ParseCsv(content, now)
    case Err(e) => Err(Unreadable(e))
    case Ok(entries) => Accept(existing, entries, now)
  }

  /** Accepting the same entries again right after adds nothing. */
  lemma {:induction false} AcceptTwiceAddsNothing(existing: seq<Obj>, entries: seq<Obj>, now: string)
    requires Accept(existing, entries, now).Ok?
    ensures Accept(Accept(existing, entries, now).value.entries, entries, now)
      == Ok(Uploaded(Accept(existing, entries, now).value.entries, 0))
  {
    var valid := ValidateEntries(entries, now).value;
    ReuploadAddsNothing(existing, valid);
  }

  /** Uploading the same file again right after adds nothing. */
  lemma {:induction false} UploadTwiceAddsNothing(existing: seq<Obj>, content: string, now: string)
    requires Upload(existing, content, now).Ok?
    ensures Upload(Upload(existing, content, now).value.entries, content, now)
      == Ok(Uploaded(Upload(existing, content, now).value.entries, 0))
  {
    AcceptTwiceAddsNothing(existing, ParseCsv(content, now).value, now);
  }

  /** An entry as the popup stores it: it passes validation and has a name. */
  predicate StoredEntry(o: Obj) { EntryValid(o) && NamePresent(o) }

  /** The entry's name still has a character once read back; as written a name made
      only of quotes and white space comes back empty. */
  predicate NameReadBack(how: Reading, o: Obj) { ReadBack(how, FieldOf(o, "vendorName")) != "" }

  /** The six exported fields come back with the phone number and vendor ID as they
      were, and the entry still passes validation when its name survives. */
  lemma {:induction false} RestoredKeepsKey(how: Reading, o: Obj, now: string)
    requires StoredEntry(o) && NameReadBack(how, o)
    ensures StoredEntry(Restored(how, o, now)) && SameKey(Restored(how, o, now), o)
  {
    var r := Restored(how, o, now);
    KeyColumns();
    KeyFieldReadBack(how, FieldOf(o, "phoneNumber"));
    KeyFieldReadBack(how, FieldOf(o, "vendorId"));
    RestoredAt(how, o, now, "phoneNumber");
    RestoredAt(how, o, now, "vendorId");
    RestoredAt(how, o, now, "vendorName");
    var n := FieldOf(o, "vendorName");
    TrimIdempotent(n);
    TrimIdempotent(Filter(n, IsNotQuote));
  }

  /** The key fields and the name are exported columns other than the timestamp. */
  lemma {:induction false} KeyColumns()
    ensures "phoneNumber" in Columns && "phoneNumber" != "timestamp"
    ensures "vendorId" in Columns && "vendorId" != "timestamp"
    ensures "vendorName" in Columns && "vendorName" != "timestamp"
  {
    assert Columns[0] == "phoneNumber" && Columns[1] == "vendorId" && Columns[2] == "vendorName";
  }

  /** A value made of digits and hyphens reads back unchanged. */
  lemma {:induction false} KeyFieldReadBack(how: Reading, p: string)
    requires forall i :: 0 <= i < |p| ==> IsPhoneChar(p[i])
    ensures ReadBack(how, p) == p
  {
    forall i | 0 <= i < |p| ensures !IsSpace(p[i]) && IsNotQuote(p[i]) { PhoneCharNotSpace(p[i]); }
    assert Filter(p, IsNotQuote) == p;
  }

  /** A file whose entries all pass validation and all have a key already stored
      is accepted and adds nothing. */
  lemma {:induction false} AcceptStored(existing: seq<Obj>, parsed: seq<Obj>, now: string)
    requires |parsed| > 0
    requires forall i :: 0 <= i < |parsed| ==> EntryValid(parsed[i]) && Stored(existing, parsed[i])
    ensures Accept(existing, parsed, now) == Ok(Uploaded(existing, 0))
  {
    ValidatedStored(existing, parsed, now);
    NothingNew(existing, ValidateEntries(parsed, now).value);
    assert existing + [] == existing;
  }

  /** Normalising keeps the key, so validated entries whose keys were stored still are. */
  lemma {:induction false} ValidatedStored(existing: seq<Obj>, parsed: seq<Obj>, now: string)
    requires |parsed| > 0
    requires forall i :: 0 <= i < |parsed| ==> EntryValid(parsed[i]) && Stored(existing, parsed[i])
    ensures ValidateEntries(parsed, now).Ok?
    ensures forall i :: 0 <= i < |ValidateEntries(parsed, now).value| ==> Stored(existing, ValidateEntries(parsed, now).value[i])
  {
    var v := ValidateEntries(parsed, now);
    assert v.Ok?;
    forall i | 0 <= i < |v.value| ensures Stored(existing, v.value[i]) {
      KeysSurviveNormalizing(parsed[i], now);
      var j :| 0 <= j < |existing| && SameKey(existing[j], parsed[i]);
      assert SameKey(existing[j], v.value[i]);
    }
  }

  /** Every entry read back from a backup passes validation and has the key of the
      entry it was written from. */
  lemma {:induction false} RestoredAllStored(how: Reading, data: seq<Obj>, now: string)
    requires forall i :: 0 <= i < |data| ==> StoredEntry(data[i]) && NameReadBack(how, data[i])
    ensures forall i :: 0 <= i < |data| ==> EntryValid(RestoredAll(how, data, now)[i]) && Stored(data, RestoredAll(how, data, now)[i])
  {
    var back := RestoredAll(how, data, now);
    forall i | 0 <= i < |data| ensures EntryValid(back[i]) && Stored(data, back[i]) {
      RestoredKeepsKey(how, data[i], now);
      assert SameKey(data[i], back[i]);
    }
  }

  /** Restoring a backup into the store it was downloaded from adds nothing: every
      entry read back has the key of the entry it was written from, as long as no
      name is lost with its quotes. */
  lemma {:induction false} RestoreIntoSameStore(data: seq<Obj>, now: string)
    requires |data| >= 1 && NoLineFeeds(data)
    requires forall i :: 0 <= i < |data| ==> StoredEntry(data[i]) && NameReadBack(AsWritten, data[i])
    ensures Upload(data, ConvertToCsv(data), now) == Ok(Uploaded(data, 0))
    ensures Upload(data, "\U{FEFF}" + ConvertToCsv(data), now) == Ok(Uploaded(data, 0))
  {
    ExportImport(data, now);
    RestoredAllStored(AsWritten, data, now);
    AcceptStored(data, RestoredAll(AsWritten, data, now), now);
  }

  /** A backup whose only name is made of quotes is refused on upload as written: the
      name comes back empty and the entry fails validation. */
  lemma {:induction false} QuotedNameRefused(data: seq<Obj>, now: string)
    requires |data| == 1 && NoLineFeeds(data) && FieldOf(data[0], "vendorName") == "\"\""
    ensures Upload(data, ConvertToCsv(data), now).Err?
  {
    ExportImport(data, now);
    var back := RestoredAll(AsWritten, data, now);
    KeyColumns();
    RestoredAt(AsWritten, data[0], now, "vendorName");
    QuotesReadBackEmpty(FieldOf(data[0], "vendorName"));
    assert !EntryValid(back[0]);
  }

  lemma {:induction false} QuotesReadBackEmpty(v: string)
    requires v == "\"\""
    ensures ReadBack(AsWritten, v) == ""
  {
    assert v[1..][1..] == "";
    assert Filter(v[1..], IsNotQuote) == "";
  }

  /** When every uploaded entry's key is stored, none is added. */
  lemma {:induction false} NothingNew(existing: seq<Obj>, incoming: seq<Obj>)
    requires forall i :: 0 <= i < |incoming| ==> Stored(existing, incoming[i])
    ensures NewEntries(existing, incoming) == []
  {
    SelectEmpty(incoming, x => !Stored(existing, x));
  }
}
