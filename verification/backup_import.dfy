/** What the popup's upload button does with the entries a backup file yields:
    `validateEntries` checks every entry and normalises it, and the upload
    handler appends to the stored list only the entries whose phone number and
    vendor ID are not stored already. */
module BackupImport {
  import opened Wrappers
  import opened JsString
  import opened BackupCsv

  // ---------------------------------------------------------------- validateEntries

  /** Why `validateEntries` throws. `number` is the entry's position counted from 1,
      as the message shows it. */
  datatype ValidationError =
    | NoEntries
    | MissingField(number: nat, field: string)
    | BadPhoneNumber(number: nat)
    | BadVendorId(number: nat)

  /** The fields every entry must hold a non-empty value for, in the order they are checked. */
  const RequiredFields: seq<string> := ["phoneNumber", "vendorId", "vendorName"]

  predicate IsPhoneChar(c: char) { IsDigit(c) || c == '-' }

  /** The phone-number pattern: one or more ASCII digits and hyphens, nothing else. */
  predicate PhoneShaped(s: string) { |s| > 0 && forall i :: 0 <= i < |s| ==> IsPhoneChar(s[i]) }

  /** The vendor-ID pattern: one or more ASCII digits, nothing else. */
  predicate IdShaped(s: string) { |s| > 0 && AllDigits(s) }

  /** An entry `validateEntries` lets through: a phone number and a vendor ID of the
      right shape, and some vendor name. */
  predicate EntryValid(o: Obj) {
    PhoneShaped(FieldOf(o, "phoneNumber")) && IdShaped(FieldOf(o, "vendorId")) && FieldOf(o, "vendorName") != ""
  }

  /** The position of the first field in `fields` that the entry lacks or holds
      empty (a falsy value), or `|fields|` when it has them all. */
  function FirstMissing(o: Obj, fields: seq<string>): (r: nat)
    ensures r <= |fields|
    ensures forall j :: 0 <= j < r ==> FieldOf(o, fields[j]) != ""
    ensures r < |fields| ==> FieldOf(o, fields[r]) == ""
  {
    if |fields| == 0 then 0
    else if FieldOf(o, fields[0]) == "" then 0
    else 1 + FirstMissing(o, fields[1..])
  }

  lemma {:induction false} FirstMissingRequired(o: Obj)
    ensures FirstMissing(o, RequiredFields) == |RequiredFields| <==>
      FieldOf(o, "phoneNumber") != "" && FieldOf(o, "vendorId") != "" && FieldOf(o, "vendorName") != ""
  {
    var m := FirstMissing(o, RequiredFields);
    if m == 3 {
      assert FieldOf(o, RequiredFields[0]) != "" && FieldOf(o, RequiredFields[1]) != "" && FieldOf(o, RequiredFields[2]) != "";
    }
  }

  /** The checks on one entry, in the order the source makes them; `None` when it passes. */
  function CheckEntry(o: Obj, number: nat): (r: Option<ValidationError>)
    ensures r.None? <==> EntryValid(o)
    ensures r.Some? ==> !r.value.NoEntries? && r.value.number == number
  {
    var m := FirstMissing(o, RequiredFields);
    FirstMissingRequired(o);
    if m < |RequiredFields| then Some(MissingField(number, RequiredFields[m]))
    else if !PhoneShaped(FieldOf(o, "phoneNumber")) then Some(BadPhoneNumber(number))
    else if !IdShaped(FieldOf(o, "vendorId")) then Some(BadVendorId(number))
    else None
  }

  /** A required field that is missing is reported before any pattern check, and
      the first missing one in the order phone number, vendor ID, vendor name. */
  lemma {:induction false} MissingReportedFirst(o: Obj, number: nat, k: nat)
    requires k < |RequiredFields| && FieldOf(o, RequiredFields[k]) == ""
    requires forall j :: 0 <= j < k ==> FieldOf(o, RequiredFields[j]) != ""
    ensures CheckEntry(o, number) == Some(MissingField(number, RequiredFields[k]))
  {
    var m := FirstMissing(o, RequiredFields);
    assert m == k;
  }

  /** The fields trimmed after the checks pass. */
  const TrimmedFields: seq<string> := ["phoneNumber", "vendorId", "vendorName", "vendorPhonetic", "vendorIndustry"]

  /** The entry after the checks: the five text fields trimmed (a missing phonetic
      or industry becomes empty), and a missing or empty timestamp replaced by `now`. */
  function Normalized(o: Obj, now: string): Obj {
    map k | k in o.Keys + (set f | f in TrimmedFields) + {"timestamp"} ::
      if k in TrimmedFields then Trim(FieldOf(o, k))
      else if k == "timestamp" && FieldOf(o, k) == "" then now
      else o[k]
  }

  lemma {:induction false} TimestampNotTrimmed()
    ensures "timestamp" !in TrimmedFields
  {
  }

  /** Normalising adds the six exported fields and drops none. */
  lemma {:induction false} NormalizedKeys(o: Obj, now: string)
    ensures forall k :: k in Normalized(o, now) <==> k in o || k in TrimmedFields || k == "timestamp"
  {
  }

  lemma {:induction false} NormalizedTrims(o: Obj, now: string)
    ensures forall k :: k in TrimmedFields ==> k in Normalized(o, now) && Normalized(o, now)[k] == Trim(FieldOf(o, k))
  {
  }

  lemma {:induction false} NormalizedStamps(o: Obj, now: string)
    ensures "timestamp" in Normalized(o, now)
    ensures Normalized(o, now)["timestamp"] == (if FieldOf(o, "timestamp") == "" then now else o["timestamp"])
  {
    TimestampNotTrimmed();
  }

  lemma {:induction false} NormalizedKeeps(o: Obj, now: string)
    ensures forall k :: k in o && k !in TrimmedFields && k != "timestamp" ==> Normalized(o, now)[k] == o[k]
  {
  }

  /** What normalising does to each field, and that it leaves every other field alone. */
  lemma {:induction false} NormalizedFields(o: Obj, now: string)
    ensures forall k :: k in Normalized(o, now) <==> k in o || k in TrimmedFields || k == "timestamp"
    ensures forall k :: k in TrimmedFields ==> Normalized(o, now)[k] == Trim(FieldOf(o, k))
    ensures "timestamp" in Normalized(o, now)
    ensures Normalized(o, now)["timestamp"] == (if FieldOf(o, "timestamp") == "" then now else o["timestamp"])
    ensures forall k :: k in o && k !in TrimmedFields && k != "timestamp" ==> Normalized(o, now)[k] == o[k]
  {
    NormalizedKeys(o, now);
    NormalizedTrims(o, now);
    NormalizedStamps(o, now);
    NormalizedKeeps(o, now);
  }

  lemma {:induction false} PhoneCharNotSpace(c: char)
    requires IsPhoneChar(c)
    ensures !IsSpace(c)
  {
  }

  /** The phone and ID patterns admit no white space, so trimming a valid entry never
      changes the two fields the upload compares entries by. */
  lemma {:induction false} KeysSurviveNormalizing(o: Obj, now: string)
    requires EntryValid(o)
    ensures "phoneNumber" in Normalized(o, now) && Normalized(o, now)["phoneNumber"] == o["phoneNumber"]
    ensures "vendorId" in Normalized(o, now) && Normalized(o, now)["vendorId"] == o["vendorId"]
  {
    NormalizedFields(o, now);
    var p := FieldOf(o, "phoneNumber");
    var d := FieldOf(o, "vendorId");
    forall i | 0 <= i < |p| ensures !IsSpace(p[i]) { PhoneCharNotSpace(p[i]); }
    forall i | 0 <= i < |d| ensures !IsSpace(d[i]) { PhoneCharNotSpace(d[i]); }
  }

  /** Every entry normalised. */
  function NormalizedAll(entries: seq<Obj>, now: string): (r: seq<Obj>)
    ensures |r| == |entries| && forall i :: 0 <= i < |entries| ==> r[i] == Normalized(entries[i], now)
  {
    if |entries| == 0 then [] else [Normalized(entries[0], now)] + NormalizedAll(entries[1..], now)
  }

  /** Every entry passes the checks. */
  predicate AllValid(entries: seq<Obj>) {
    forall i :: 0 <= i < |entries| ==> EntryValid(entries[i])
  }

  lemma {:induction false} AllValidCons(entries: seq<Obj>)
    requires |entries| > 0
    ensures AllValid(entries) <==> EntryValid(entries[0]) && AllValid(entries[1..])
  {
    if EntryValid(entries[0]) && AllValid(entries[1..]) {
      forall i | 0 <= i < |entries| ensures EntryValid(entries[i]) {
        if i > 0 { assert entries[i] == entries[1..][i - 1]; }
      }
    }
  }

  /** `entries.forEach(...)` from the entry numbered `number` on: the first entry
      that fails aborts the whole upload; otherwise every entry is normalised. */
  function ValidateFrom(entries: seq<Obj>, now: string, number: nat): (r: Result<seq<Obj>, ValidationError>)
    ensures r.Ok? <==> AllValid(entries)
    ensures r.Ok? ==> r.value == NormalizedAll(entries, now)
    ensures r.Err? ==> !r.error.NoEntries?
    decreases |entries|
  {
    if |entries| == 0 then Ok([])
    else
      var c := CheckEntry(entries[0], number);
      if c.Some? then Err(c.value)
      else
        var tail := entries[1..];
        var rest := ValidateFrom(tail, now, number + 1);
        AllValidCons(entries);
        if rest.Err? then rest
        else Ok([Normalized(entries[0], now)] + rest.value)
  }

  /** `validateEntries(entries)`, with `now` the time an entry without a timestamp
      gets. The normalised entries are returned rather than written back in place. */
  function ValidateEntries(entries: seq<Obj>, now: string): (r: Result<seq<Obj>, ValidationError>)
    ensures r == Err(NoEntries) <==> |entries| == 0
    ensures r.Ok? <==> |entries| > 0 && forall i :: 0 <= i < |entries| ==> EntryValid(entries[i])
    ensures r.Ok? ==> |r.value| == |entries| && forall i :: 0 <= i < |entries| ==> r.value[i] == Normalized(entries[i], now)
  {
    if |entries| == 0 then Err(NoEntries) else ValidateFrom(entries, now, 1)
  }

  /** The error is the one for the first entry that fails, numbered from 1. */
  lemma {:induction false} FirstInvalidReported(entries: seq<Obj>, now: string, number: nat, i: nat)
    requires i < |entries| && !EntryValid(entries[i])
    requires forall j :: 0 <= j < i ==> EntryValid(entries[j])
    ensures ValidateFrom(entries, now, number) == Err(CheckEntry(entries[i], number + i).value)
    decreases i
  {
    if i > 0 {
      assert EntryValid(entries[0]);
      FirstInvalidReported(entries[1..], now, number + 1, i - 1);
    }
  }

  /** A vendor name is checked before it is trimmed: a name of white space alone
      passes and is stored empty. */
  lemma {:induction false} BlankNameAccepted(o: Obj, now: string)
    requires EntryValid(o) && AllSpace(FieldOf(o, "vendorName"))
    ensures ValidateEntries([o], now) == Ok([Normalized(o, now)])
    ensures "vendorName" in Normalized(o, now) && Normalized(o, now)["vendorName"] == ""
  {
    NormalizedFields(o, now);
    TrimAllSpace(FieldOf(o, "vendorName"));
    var r := ValidateEntries([o], now);
    assert r.Ok?;
    assert |r.value| == 1 && r.value[0] == Normalized(o, now);
    assert r.value == [Normalized(o, now)];
  }

  /** A vendor name that is more than white space. */
  predicate NamePresent(o: Obj) { Trim(FieldOf(o, "vendorName")) != "" }

  /** A normalised entry of a valid one with a name is valid again. */
  lemma {:induction false} NormalizedValid(o: Obj, now: string)
    requires EntryValid(o) && NamePresent(o)
    ensures EntryValid(Normalized(o, now))
  {
    KeysSurviveNormalizing(o, now);
    NormalizedTrims(o, now);
    assert "vendorName" in TrimmedFields;
  }

  /** Every trimmed field of a normalised entry is trimmed already. */
  lemma {:induction false} NormalizedTrimmed(o: Obj, now: string)
    ensures forall k :: k in TrimmedFields ==> Trim(FieldOf(Normalized(o, now), k)) == FieldOf(Normalized(o, now), k)
  {
    NormalizedTrims(o, now);
    forall k | k in TrimmedFields ensures Trim(FieldOf(Normalized(o, now), k)) == FieldOf(Normalized(o, now), k) {
      TrimIdempotent(FieldOf(o, k));
    }
  }

  /** An entry holding the six exported fields, the five text fields trimmed and a
      timestamp, is left as it is. */
  lemma {:induction false} NormalizingNormal(n: Obj, later: string)
    requires forall k :: k in TrimmedFields ==> k in n && Trim(n[k]) == n[k]
    requires "timestamp" in n && n["timestamp"] != ""
    ensures Normalized(n, later) == n
  {
    var m := Normalized(n, later);
    NormalizedFields(n, later);
    assert forall k :: k in m <==> k in n;
    forall k | k in m ensures m[k] == n[k] {
      if k in TrimmedFields {
        assert m[k] == Trim(FieldOf(n, k));
      }
    }
  }

  /** A normalised entry of a valid one with a name is valid again, and normalising
      it once more changes nothing, whatever the time (the ISO time the first pass
      wrote is never empty). */
  lemma {:induction false} NormalizedIsFixed(o: Obj, now: string, later: string)
    requires EntryValid(o) && NamePresent(o) && now != ""
    ensures EntryValid(Normalized(o, now))
    ensures Normalized(Normalized(o, now), later) == Normalized(o, now)
  {
    var n := Normalized(o, now);
    NormalizedValid(o, now);
    NormalizedTrimmed(o, now);
    NormalizedTrims(o, now);
    NormalizedStamps(o, now);
    NormalizingNormal(n, later);
  }

  /** Validation is idempotent on entries with names: validating the validated
      entries again accepts them unchanged. */
  lemma {:induction false} ValidateIdempotent(entries: seq<Obj>, now: string, later: string)
    requires ValidateEntries(entries, now).Ok? && now != ""
    requires forall i :: 0 <= i < |entries| ==> NamePresent(entries[i])
    ensures ValidateEntries(ValidateEntries(entries, now).value, later) == ValidateEntries(entries, now)
  {
    var v := ValidateEntries(entries, now).value;
    forall i | 0 <= i < |v| ensures EntryValid(v[i]) && Normalized(v[i], later) == v[i] {
      NormalizedIsFixed(entries[i], now, later);
    }
    var w := ValidateEntries(v, later);
    assert w.Ok?;
    assert w.value == v;
  }

  // ---------------------------------------------------------------- the merge

  /** The upload's duplicate test: `===` on the phone number and on the vendor ID,
      a missing field standing for `undefined`. */
  predicate SameKey(a: Obj, b: Obj) {
    Lookup(a, "phoneNumber") == Lookup(b, "phoneNumber") && Lookup(a, "vendorId") == Lookup(b, "vendorId")
  }

  /** `existingEntries.some(...)`: some stored entry has the same key as `e`. */
  predicate Stored(existing: seq<Obj>, e: Obj) {
    exists j :: 0 <= j < |existing| && SameKey(existing[j], e)
  }

  /** The uploaded entries whose key no stored entry has, in upload order. */
  function NewEntries(existing: seq<Obj>, incoming: seq<Obj>): (r: seq<Obj>)
    ensures |r| <= |incoming|
    ensures forall x :: x in r <==> x in incoming && !Stored(existing, x)
  {
    Select(incoming, x => !Stored(existing, x))
  }

  /** `[...existingEntries, ...newEntries]`. */
  function Merge(existing: seq<Obj>, incoming: seq<Obj>): (r: seq<Obj>)
    ensures |existing| <= |r| <= |existing| + |incoming|
    ensures r[..|existing|] == existing
    ensures forall x :: x in r <==> x in existing || (x in incoming && !Stored(existing, x))
  {
    existing + NewEntries(existing, incoming)
  }

  /** After a merge every uploaded entry has its key stored. */
  lemma {:induction false} MergeStoresAll(existing: seq<Obj>, incoming: seq<Obj>)
    ensures forall x :: x in incoming ==> Stored(Merge(existing, incoming), x)
  {
    var m := Merge(existing, incoming);
    forall x | x in incoming ensures Stored(m, x) {
      if Stored(existing, x) {
        var j :| 0 <= j < |existing| && SameKey(existing[j], x);
        assert m[j] == existing[j];
      } else {
        var j :| 0 <= j < |m| && m[j] == x;
        assert SameKey(m[j], x);
      }
    }
  }

  /** Uploading the same entries a second time adds none. */
  lemma {:induction false} ReuploadAddsNothing(existing: seq<Obj>, incoming: seq<Obj>)
    ensures NewEntries(Merge(existing, incoming), incoming) == []
    ensures Merge(Merge(existing, incoming), incoming) == Merge(existing, incoming)
  {
    var m := Merge(existing, incoming);
    MergeStoresAll(existing, incoming);
    var p := x => !Stored(m, x);
    SelectEmpty(incoming, p);
    assert m + [] == m;
  }

  /** With no key of the upload stored, every uploaded entry is appended, entries
      that repeat a key within the same upload included. */
  lemma {:induction false} NothingStoredKeepsAll(existing: seq<Obj>, incoming: seq<Obj>)
    requires forall i :: 0 <= i < |incoming| ==> !Stored(existing, incoming[i])
    ensures NewEntries(existing, incoming) == incoming
    decreases |incoming|
  {
    if |incoming| > 0 {
      NothingStoredKeepsAll(existing, incoming[1..]);
      assert incoming == [incoming[0]] + incoming[1..];
    }
  }

  /** Two uploaded entries with the same key both land in an empty store. */
  lemma {:induction false} DuplicatesInOneUploadKept(a: Obj, b: Obj)
    requires SameKey(a, b)
    ensures Merge([], [a, b]) == [a, b]
  {
    NothingStoredKeepsAll([], [a, b]);
  }
}
