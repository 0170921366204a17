/** The vendor-history side of the registration screen script
    (`UltraFastVendorSelector`): the telephone index built from the stored entries
    (`preloadData`), the choice of the newest entry per number, the per-vendor
    de-duplication of candidates (`getUniqueCandidates`), the selection decision
    (`executeVendorSelection`, `showCandidateSelectionDialog`), the repeat filter of
    `processPhoneNumber`, the Escape decision (`shouldPressEscapeKey`) and the
    industry filter over table rows (`disableRows`, `toggleFilter`).

    Where the script redefines a method further down the file, the later definition
    is the one modelled. Timestamps are whole numbers with 0 for a missing one. */
module VendorIndex {
  import opened Wrappers
  import opened JsString

  /** A stored vendor entry. An empty `vendorId` stands for a missing one. */
  datatype Entry = Entry(phoneNumber: string, vendorId: string, vendorName: string, timestamp: nat)

  /** The phone with every non-digit removed, as `preloadData` stores it. */
  function Normalize(e: Entry): (n: Entry)
    ensures AllDigits(n.phoneNumber)
    ensures n.vendorId == e.vendorId && n.vendorName == e.vendorName && n.timestamp == e.timestamp
  {
    e.(phoneNumber := Filter(e.phoneNumber, IsDigit))
  }

  // ---------------------------------------------------------------- preloadData

  /** The normalised entries stored under phone `p`, in storage order: the reference
      for the index. */
  function EntriesFor(entries: seq<Option<Entry>>, p: string): (r: seq<Entry>)
    ensures forall e :: e in r ==> e.phoneNumber == p
  {
    if |entries| == 0 then []
    else
      var rest := EntriesFor(entries[..|entries| - 1], p);
      match entries[|entries| - 1]
      case None => rest
      case Some(e) => if Normalize(e).phoneNumber == p then rest + [Normalize(e)] else rest
  }

  /** `phoneIndex` as `preloadData` builds it: missing entries are skipped and an
      entry whose normalised phone is empty is not indexed. */
  function PhoneIndex(entries: seq<Option<Entry>>): (idx: map<string, seq<Entry>>)
  {
    if |entries| == 0 then map[]
    else
      var m := PhoneIndex(entries[..|entries| - 1]);
      match entries[|entries| - 1]
      case None => m
      case Some(e) =>
        var n := Normalize(e);
        if n.phoneNumber == "" then m
        else m[n.phoneNumber := (if n.phoneNumber in m then m[n.phoneNumber] else []) + [n]]
  }

  /** The index holds, under each non-empty phone, exactly the entries stored with
      that phone, in storage order; an empty phone is never a key. */
  lemma {:induction false} PhoneIndexIsFilter(entries: seq<Option<Entry>>, p: string)
    ensures p in PhoneIndex(entries) <==> p != "" && |EntriesFor(entries, p)| > 0
    ensures p in PhoneIndex(entries) ==> PhoneIndex(entries)[p] == EntriesFor(entries, p)
  {
    if |entries| > 0 {
      PhoneIndexIsFilter(entries[..|entries| - 1], p);
    }
  }

  /** `vendorIdMap`: each non-empty vendor id maps to the last entry stored with it. */
  function VendorIdMap(entries: seq<Option<Entry>>): (m: map<string, Entry>)
    ensures forall id :: id in m ==> id != "" && m[id].vendorId == id
  {
    if |entries| == 0 then map[]
    else
      var m := VendorIdMap(entries[..|entries| - 1]);
      match entries[|entries| - 1]
      case None => m
      case Some(e) => if e.vendorId == "" then m else m[e.vendorId := Normalize(e)]
  }

  /** The vendor map keeps the last of the entries sharing an id. */
  lemma {:induction false} VendorIdMapLast(entries: seq<Option<Entry>>, i: int)
    requires 0 <= i < |entries| && entries[i].Some? && entries[i].value.vendorId != ""
    requires forall j :: i < j < |entries| && entries[j].Some? ==> entries[j].value.vendorId != entries[i].value.vendorId
    ensures entries[i].value.vendorId in VendorIdMap(entries)
    ensures VendorIdMap(entries)[entries[i].value.vendorId] == Normalize(entries[i].value)
  {
    var n := |entries|;
    if i < n - 1 {
      VendorIdMapLast(entries[..n - 1], i);
    }
  }

  // ---------------------------------------------------------------- latestEntryByPhone

  /** The `reduce` of `preloadData`: the running newest entry is replaced only by a
      strictly newer one. */
  function Latest(es: seq<Entry>): (r: Entry)
    requires |es| > 0
    ensures r in es
    ensures forall e :: e in es ==> e.timestamp <= r.timestamp
  {
    if |es| == 1 then es[0]
    else
      var l := Latest(es[..|es| - 1]);
      assert forall e :: e in es ==> e in es[..|es| - 1] || e == es[|es| - 1];
      if es[|es| - 1].timestamp > l.timestamp then es[|es| - 1] else l
  }

  /** On ties the earliest of the newest entries wins. */
  lemma {:induction false} LatestIsFirstNewest(es: seq<Entry>) returns (i: nat)
    requires |es| > 0
    ensures i < |es| && es[i] == Latest(es)
    ensures forall j :: 0 <= j < i ==> es[j].timestamp < Latest(es).timestamp
  {
    if |es| == 1 {
      i := 0;
    } else {
      var init := es[..|es| - 1];
      var k := LatestIsFirstNewest(init);
      if es[|es| - 1].timestamp > Latest(init).timestamp {
        i := |es| - 1;
        forall j | 0 <= j < i ensures es[j].timestamp < Latest(es).timestamp {
          assert es[j] in init;
        }
      } else {
        i := k;
      }
    }
  }

  /** `latestEntryByPhone[p]`. */
  function LatestByPhone(idx: map<string, seq<Entry>>, p: string): (r: Option<Entry>)
    ensures r.Some? <==> p in idx && |idx[p]| > 0
    ensures r.Some? ==> r.value in idx[p] && forall e :: e in idx[p] ==> e.timestamp <= r.value.timestamp
  {
    if p in idx && |idx[p]| > 0 then Some(Latest(idx[p])) else None
  }

  // ---------------------------------------------------------------- getUniqueCandidates

  function Ids(es: seq<Entry>): (r: seq<string>)
    ensures |r| == |es| && forall i :: 0 <= i < |es| ==> r[i] == es[i].vendorId
  {
    seq(|es|, i requires 0 <= i < |es| => es[i].vendorId)
  }

  predicate HasVendorId(e: Entry) { e.vendorId != "" }

  /** The position of vendor id `id` in `acc`, or `|acc|` when it is absent. */
  function IdPosition(acc: seq<Entry>, id: string): (k: nat)
    ensures k <= |acc|
    ensures k < |acc| ==> acc[k].vendorId == id
    ensures forall j :: 0 <= j < k ==> acc[j].vendorId != id
  {
    if |acc| == 0 then 0
    else if acc[0].vendorId == id then 0
    else 1 + IdPosition(acc[1..], id)
  }

  /** One step of the `forEach`: a new id is appended; a known id keeps its place
      and its entry is replaced only by a strictly newer one. */
  function Upsert(acc: seq<Entry>, c: Entry): (r: seq<Entry>)
    ensures forall e :: e in r ==> e in acc || e == c
    ensures Ids(r) == if c.vendorId in Ids(acc) then Ids(acc) else Ids(acc) + [c.vendorId]
  {
    var k := IdPosition(acc, c.vendorId);
    if k == |acc| then
      assert c.vendorId !in Ids(acc);
      acc + [c]
    else
      assert Ids(acc)[k] == c.vendorId;
      if c.timestamp > acc[k].timestamp then acc[k := c] else acc
  }

  /** `getUniqueCandidates(candidates)`: the entries without a vendor id are dropped
      and one entry is kept per vendor id. */
  function UniqueCandidates(cs: seq<Entry>): (r: seq<Entry>)
    ensures forall e :: e in r ==> HasVendorId(e) && e in cs
  {
    if |cs| == 0 then []
    else
      var init := cs[..|cs| - 1];
      var c := cs[|cs| - 1];
      var acc := UniqueCandidates(init);
      assert forall e :: e in init ==> e in cs;
      if !HasVendorId(c) then acc else Upsert(acc, c)
  }

  lemma SelectSnoc<T(!new)>(xs: seq<T>, x: T, p: T -> bool)
    ensures Select(xs + [x], p) == Select(xs, p) + (if p(x) then [x] else [])
  {
    if |xs| > 0 {
      assert (xs + [x])[1..] == xs[1..] + [x];
      SelectSnoc(xs[1..], x, p);
    }
  }

  lemma {:induction false} IdsSnoc(es: seq<Entry>, c: Entry)
    ensures Ids(es + [c]) == Ids(es) + [c.vendorId]
  {
  }

  /** The vendor ids kept are those of the candidates that have one, each once, in
      the order of first appearance. */
  lemma {:induction false} UniqueIds(cs: seq<Entry>)
    ensures Ids(UniqueCandidates(cs)) == Dedup(Ids(Select(cs, HasVendorId)))
  {
    if |cs| > 0 {
      var init := cs[..|cs| - 1];
      var c := cs[|cs| - 1];
      var acc := UniqueCandidates(init);
      assert cs == init + [c];
      UniqueIds(init);
      SelectSnoc(init, c, HasVendorId);
      var ids := Ids(Select(init, HasVendorId));
      if HasVendorId(c) {
        assert UniqueCandidates(cs) == Upsert(acc, c);
        IdsSnoc(Select(init, HasVendorId), c);
        DedupSnoc(ids, c.vendorId);
      } else {
        assert UniqueCandidates(cs) == acc;
        assert Select(cs, HasVendorId) == Select(init, HasVendorId);
      }
    }
  }

  lemma {:induction false} DedupSnoc(ids: seq<string>, x: string)
    ensures Dedup(ids + [x]) == if x in Dedup(ids) then Dedup(ids) else Dedup(ids) + [x]
  {
    assert (ids + [x])[..|ids|] == ids;
  }

  /** The kept entries have distinct vendor ids. */
  lemma {:induction false} UniqueIdsDistinct(cs: seq<Entry>)
    ensures forall i, j :: 0 <= i < j < |UniqueCandidates(cs)| ==>
      UniqueCandidates(cs)[i].vendorId != UniqueCandidates(cs)[j].vendorId
  {
    var u := UniqueCandidates(cs);
    UniqueIds(cs);
    forall i, j | 0 <= i < j < |u| ensures u[i].vendorId != u[j].vendorId {
      assert Ids(u)[i] == u[i].vendorId && Ids(u)[j] == u[j].vendorId;
    }
  }

  /** The candidates with vendor id `x`, in order. */
  function WithId(cs: seq<Entry>, x: string): (r: seq<Entry>)
    ensures forall e :: e in r <==> e in cs && e.vendorId == x
  {
    if |cs| == 0 then []
    else
      var init := cs[..|cs| - 1];
      assert forall e :: e in cs <==> e in init || e == cs[|cs| - 1];
      WithId(init, x) + (if cs[|cs| - 1].vendorId == x then [cs[|cs| - 1]] else [])
  }

  /** No kept entry carries id `x` exactly when no candidate does (for a real id). */
  lemma {:induction false} AbsentIdHasNoCandidates(cs: seq<Entry>, x: string)
    requires x != "" && x !in Ids(UniqueCandidates(cs))
    ensures WithId(cs, x) == []
  {
    if |cs| > 0 {
      var init := cs[..|cs| - 1];
      var c := cs[|cs| - 1];
      var acc := UniqueCandidates(init);
      if HasVendorId(c) {
        assert forall y :: y in Ids(acc) ==> y in Ids(Upsert(acc, c));
        assert c.vendorId in Ids(Upsert(acc, c));
      }
      AbsentIdHasNoCandidates(init, x);
    }
  }

  /** The entry kept for each vendor id is the one the `reduce` of `preloadData` would
      pick among the candidates with that id: a newest one, the earliest on a tie. */
  lemma {:induction false} UniqueIsLatestPerId(cs: seq<Entry>, q: int)
    requires 0 <= q < |UniqueCandidates(cs)|
    ensures |WithId(cs, UniqueCandidates(cs)[q].vendorId)| > 0
    ensures UniqueCandidates(cs)[q] == Latest(WithId(cs, UniqueCandidates(cs)[q].vendorId))
  {
    var init := cs[..|cs| - 1];
    var c := cs[|cs| - 1];
    var acc := UniqueCandidates(init);
    var r := UniqueCandidates(cs);
    var x := r[q].vendorId;
    assert r[q] in r;
    assert cs == init + [c];
    WithIdSnoc(init, c, x);
    if !HasVendorId(c) {
      assert r == acc;
      UniqueIsLatestPerId(init, q);
    } else {
      assert r == Upsert(acc, c);
      var k := IdPosition(acc, c.vendorId);
      if k == |acc| {
        assert r == acc + [c];
        if q == |acc| {
          NewIdIsLatest(init, c);
          assert r[q] == c && WithId(cs, x) == [c];
        } else {
          assert r[q] == acc[q] && x != c.vendorId;
          UniqueIsLatestPerId(init, q);
        }
      } else {
        assert |r| == |acc|;
        UniqueIsLatestPerId(init, q);
        UniqueIdsDistinct(init);
        if q != k {
          assert r[q] == acc[q] && x != c.vendorId;
        } else {
          assert r[k] == if c.timestamp > acc[k].timestamp then c else acc[k];
          LatestSnoc(WithId(init, x), c);
        }
      }
    }
  }

  lemma {:induction false} WithIdSnoc(init: seq<Entry>, c: Entry, x: string)
    ensures WithId(init + [c], x) == if c.vendorId == x then WithId(init, x) + [c] else WithId(init, x)
  {
    assert (init + [c])[..|init|] == init;
  }

  lemma {:induction false} LatestSnoc(w: seq<Entry>, c: Entry)
    requires |w| > 0
    ensures Latest(w + [c]) == if c.timestamp > Latest(w).timestamp then c else Latest(w)
  {
    assert (w + [c])[..|w|] == w;
  }

  /** A vendor id seen for the first time keeps the entry that brought it. */
  lemma {:induction false} NewIdIsLatest(init: seq<Entry>, c: Entry)
    requires HasVendorId(c) && IdPosition(UniqueCandidates(init), c.vendorId) == |UniqueCandidates(init)|
    ensures WithId(init + [c], c.vendorId) == [c]
  {
    var acc := UniqueCandidates(init);
    assert forall j :: 0 <= j < |acc| ==> Ids(acc)[j] != c.vendorId;
    AbsentIdHasNoCandidates(init, c.vendorId);
    assert (init + [c])[..|init|] == init;
  }

  // ---------------------------------------------------------------- the selection decision

  /** Newest first, stable on ties: `sort((a, b) => dateB - dateA)`. */
  function SortNewestFirst(es: seq<Entry>): (r: seq<Entry>)
    ensures |r| == |es|
    ensures forall x :: x in r ==> x in es
    ensures forall i, j :: 0 <= i < j < |r| ==> r[i].timestamp >= r[j].timestamp
  {
    if |es| == 0 then []
    else
      assert forall x :: x in es[..|es| - 1] ==> x in es;
      InsertNewest(SortNewestFirst(es[..|es| - 1]), es[|es| - 1])
  }

  /** Sorting neither loses nor adds an entry. */
  lemma {:induction false} SortNewestFirstPermutes(es: seq<Entry>)
    ensures multiset(SortNewestFirst(es)) == multiset(es)
  {
    if |es| > 0 {
      assert es == es[..|es| - 1] + [es[|es| - 1]];
      SortNewestFirstPermutes(es[..|es| - 1]);
      InsertNewestPermutes(SortNewestFirst(es[..|es| - 1]), es[|es| - 1]);
    }
  }

  lemma {:induction false} InsertNewestPermutes(s: seq<Entry>, e: Entry)
    requires forall i, j :: 0 <= i < j < |s| ==> s[i].timestamp >= s[j].timestamp
    ensures multiset(InsertNewest(s, e)) == multiset(s) + multiset{e}
  {
    if |s| > 0 && s[0].timestamp >= e.timestamp {
      assert s == [s[0]] + s[1..];
      InsertNewestPermutes(s[1..], e);
    }
  }

  /** The entries stamped `t`, in order. */
  function StampedAt(es: seq<Entry>, t: nat): (r: seq<Entry>)
    ensures forall x :: x in r ==> x in es && x.timestamp == t
  {
    if |es| == 0 then [] else (if es[0].timestamp == t then [es[0]] else []) + StampedAt(es[1..], t)
  }

  lemma {:induction false} StampedAtSnoc(es: seq<Entry>, e: Entry, t: nat)
    ensures StampedAt(es + [e], t) == StampedAt(es, t) + (if e.timestamp == t then [e] else [])
  {
    if |es| == 0 {
      assert es + [e] == [e];
      assert StampedAt([e], t) == (if e.timestamp == t then [e] else []) + StampedAt([], t);
    } else {
      assert (es + [e])[1..] == es[1..] + [e];
      StampedAtSnoc(es[1..], e, t);
    }
  }

  lemma {:induction false} StampedAtNone(es: seq<Entry>, t: nat)
    requires forall i :: 0 <= i < |es| ==> es[i].timestamp != t
    ensures StampedAt(es, t) == []
  {
    if |es| > 0 {
      StampedAtNone(es[1..], t);
    }
  }

  lemma {:induction false} StampedAtCons(x: Entry, r: seq<Entry>, t: nat)
    ensures StampedAt([x] + r, t) == (if x.timestamp == t then [x] else []) + StampedAt(r, t)
  {
    assert ([x] + r)[0] == x && ([x] + r)[1..] == r;
  }

  /** An entry put in front of both sides of a stamped-list equation keeps it. */
  lemma {:induction false} ConsKeepsStamped(x: Entry, tail: seq<Entry>, r: seq<Entry>, e: Entry, t: nat)
    requires StampedAt(r, t) == StampedAt(tail, t) + (if e.timestamp == t then [e] else [])
    ensures StampedAt([x] + r, t) == StampedAt([x] + tail, t) + (if e.timestamp == t then [e] else [])
  {
    StampedAtCons(x, r, t);
    StampedAtCons(x, tail, t);
    var h := if x.timestamp == t then [x] else [];
    var o := if e.timestamp == t then [e] else [];
    assert h + (StampedAt(tail, t) + o) == (h + StampedAt(tail, t)) + o;
  }

  /** Where `e` belongs behind the head, inserting it keeps the head in front. */
  lemma InsertNewestHead(s: seq<Entry>, e: Entry) returns (tail: seq<Entry>)
    requires forall i, j :: 0 <= i < j < |s| ==> s[i].timestamp >= s[j].timestamp
    requires |s| > 0 && s[0].timestamp >= e.timestamp
    ensures tail == s[1..] && s == [s[0]] + tail
    ensures forall i, j :: 0 <= i < j < |tail| ==> tail[i].timestamp >= tail[j].timestamp
    ensures InsertNewest(s, e) == [s[0]] + InsertNewest(tail, e)
  {
    tail := s[1..];
    assert forall i, j :: 0 <= i < j < |tail| ==> tail[i].timestamp >= tail[j].timestamp by {
      forall i, j | 0 <= i < j < |tail| ensures tail[i].timestamp >= tail[j].timestamp {
        assert tail[i] == s[i + 1] && tail[j] == s[j + 1];
      }
    }
  }

  /** Inserting `e` puts it after every entry stamped like it. */
  lemma {:induction false} InsertNewestStable(s: seq<Entry>, e: Entry, t: nat)
    requires forall i, j :: 0 <= i < j < |s| ==> s[i].timestamp >= s[j].timestamp
    ensures StampedAt(InsertNewest(s, e), t) == StampedAt(s, t) + (if e.timestamp == t then [e] else [])
  {
    if |s| == 0 {
      StampedAtCons(e, [], t);
    } else if s[0].timestamp >= e.timestamp {
      var tail := InsertNewestHead(s, e);
      InsertNewestStable(tail, e, t);
      ConsKeepsStamped(s[0], tail, InsertNewest(tail, e), e, t);
    } else {
      assert InsertNewest(s, e) == [e] + s;
      StampedAtCons(e, s, t);
      if e.timestamp == t {
        assert forall i :: 0 <= i < |s| ==> s[i].timestamp != t by {
          forall i | 0 <= i < |s| ensures s[i].timestamp != t {
            assert i == 0 || s[0].timestamp >= s[i].timestamp;
          }
        }
        StampedAtNone(s, t);
      }
    }
  }

  /** The sort is stable: the entries with any one timestamp keep their order. */
  lemma {:induction false} SortNewestFirstStable(es: seq<Entry>, t: nat)
    ensures StampedAt(SortNewestFirst(es), t) == StampedAt(es, t)
  {
    if |es| > 0 {
      var init, e := es[..|es| - 1], es[|es| - 1];
      assert es == init + [e];
      SortNewestFirstStable(init, t);
      InsertNewestStable(SortNewestFirst(init), e, t);
      StampedAtSnoc(init, e, t);
    }
  }

  /** Stability for every timestamp at once. */
  lemma SortNewestFirstStableAll(es: seq<Entry>)
    ensures forall t: nat :: StampedAt(SortNewestFirst(es), t) == StampedAt(es, t)
  {
    forall t: nat ensures StampedAt(SortNewestFirst(es), t) == StampedAt(es, t) {
      SortNewestFirstStable(es, t);
    }
  }

  /** Puts `e` after every entry at least as new. */
  function InsertNewest(s: seq<Entry>, e: Entry): (r: seq<Entry>)
    requires forall i, j :: 0 <= i < j < |s| ==> s[i].timestamp >= s[j].timestamp
    ensures |r| == |s| + 1
    ensures forall x :: x in r ==> x in s || x == e
    ensures forall i, j :: 0 <= i < j < |r| ==> r[i].timestamp >= r[j].timestamp
  {
    if |s| == 0 then [e]
    else if s[0].timestamp >= e.timestamp then
      var t := InsertNewest(s[1..], e);
      assert forall x :: x in s[1..] ==> x.timestamp <= s[0].timestamp by {
        forall x | x in s[1..] ensures x.timestamp <= s[0].timestamp {
          var k :| 0 <= k < |s[1..]| && s[1..][k] == x;
          assert s[k + 1] == x;
        }
      }
      [s[0]] + t
    else [e] + s
  }

  /** The dialog: nothing to offer, one vendor selected at once, or the list newest
      first with its head pre-selected. */
  datatype Dialog = NoCandidates | SelectAtOnce(entry: Entry) | ListNewestFirst(items: seq<Entry>)

  /** The decision part of `showCandidateSelectionDialog(candidates)`. */
  function CandidateDialog(cs: seq<Entry>): (d: Dialog)
    ensures d == NoCandidates <==> forall e :: e in cs ==> !HasVendorId(e)
    ensures d.SelectAtOnce? ==> (HasVendorId(d.entry) && d.entry in cs
      && forall e :: e in cs && HasVendorId(e) ==> e.vendorId == d.entry.vendorId)
    ensures d.ListNewestFirst? ==> (|d.items| > 1
      && multiset(d.items) == multiset(UniqueCandidates(cs))
      && forall e :: e in d.items ==> d.items[0].timestamp >= e.timestamp)
    ensures d.ListNewestFirst? ==>
      forall i, j :: 0 <= i < j < |d.items| ==> d.items[i].timestamp >= d.items[j].timestamp
    ensures d.ListNewestFirst? ==>
      forall t: nat :: StampedAt(d.items, t) == StampedAt(UniqueCandidates(cs), t)
  {
    var u := UniqueCandidates(cs);
    CandidateCount(cs);
    if |u| == 0 then NoCandidates
    else if |u| == 1 then SelectAtOnce(u[0])
    else
      var sorted := SortNewestFirst(u);
      assert forall e :: e in sorted ==> sorted[0].timestamp >= e.timestamp by {
        forall e | e in sorted ensures sorted[0].timestamp >= e.timestamp {
          var j :| 0 <= j < |sorted| && sorted[j] == e;
        }
      }
      SortNewestFirstPermutes(u);
      SortNewestFirstStableAll(u);
      ListNewestFirst(sorted)
  }

  /** How many vendors the dialog sees: none exactly when no candidate has an id,
      one exactly when all candidates with an id share it. */
  lemma {:induction false} CandidateCount(cs: seq<Entry>)
    ensures |UniqueCandidates(cs)| == 0 <==> forall e :: e in cs ==> !HasVendorId(e)
    ensures |UniqueCandidates(cs)| == 1 ==>
      forall e :: e in cs && HasVendorId(e) ==> e.vendorId == UniqueCandidates(cs)[0].vendorId
  {
    var u := UniqueCandidates(cs);
    forall e | e in cs && HasVendorId(e) ensures e.vendorId in Ids(u) {
      ValidIdListed(cs, e);
    }
    if |u| > 0 {
      assert u[0] in u;
    }
  }

  /** Every candidate with a vendor id has that id among the unique candidates. */
  lemma {:induction false} ValidIdListed(cs: seq<Entry>, e: Entry)
    requires e in cs && HasVendorId(e)
    ensures e.vendorId in Ids(UniqueCandidates(cs))
  {
    var valid := Select(cs, HasVendorId);
    UniqueIds(cs);
    assert e in valid;
    var i :| 0 <= i < |valid| && valid[i] == e;
    assert Ids(valid)[i] == e.vendorId;
  }

  /** What `executeVendorSelection(phoneNumber)` ends in. */
  datatype Selection =
    | NoVendorList                 // no radio buttons on the page yet
    | NotFound                     // no entry for the number
    | NoValidId                    // entries exist, none with a vendor id
    | Selected(entry: Entry)       // `selectVendorById` with this entry
    | Offered(dialog: Dialog)      // the candidate dialog

  /** The entries `phoneIndex` holds for the digits of `phone` (`|| []`). */
  function Lookup(idx: map<string, seq<Entry>>, phone: string): seq<Entry> {
    var p := Filter(phone, IsDigit);
    if p in idx then idx[p] else []
  }

  /** The final `executeVendorSelection`, with `radiosPresent` telling whether the
      vendor table has value-bearing radio buttons. */
  function ExecuteVendorSelection(idx: map<string, seq<Entry>>, phone: string, radiosPresent: bool): (s: Selection)
    ensures !radiosPresent <==> s == NoVendorList
    ensures radiosPresent ==> s == Decide(Lookup(idx, phone))
  {
    if !radiosPresent then NoVendorList else Decide(Lookup(idx, phone))
  }

  /** What `executeVendorSelection` does with the entries found for a number: not
      found, a dialog over the entries that carry a vendor id when there are several,
      the one such entry when there is one, and an error when there is none. */
  function Decide(es: seq<Entry>): (s: Selection)
    ensures s != NoVendorList
    ensures s == NotFound <==> |es| == 0
    ensures s == NoValidId <==> |es| > 0 && forall e :: e in es ==> !HasVendorId(e)
    ensures s.Selected? ==> (s.entry in es && HasVendorId(s.entry)
      && forall e :: e in es && HasVendorId(e) ==> e == s.entry)
    ensures s.Offered? ==> |Select(es, HasVendorId)| > 1 && s.dialog == CandidateDialog(Select(es, HasVendorId))
  {
    if |es| == 0 then NotFound
    else
      var valid := Select(es, HasVendorId);
      SelectEmpty(es, HasVendorId);
      if |valid| > 1 then Offered(CandidateDialog(valid))
      else if |valid| == 1 then
        assert valid[0] in valid;
        Selected(valid[0])
      else NoValidId
  }

  /** The fallback of `executeVendorSelection` to `latestEntryByPhone` when no entry
      has a vendor id cannot select anything: the latest entry is one of those
      entries, so it has no vendor id either and the error branch is taken. */
  lemma {:induction false} LatestFallbackHasNoId(entries: seq<Option<Entry>>, p: string)
    requires p in PhoneIndex(entries) && |Select(PhoneIndex(entries)[p], HasVendorId)| == 0
    ensures LatestByPhone(PhoneIndex(entries), p).Some?
    ensures !HasVendorId(LatestByPhone(PhoneIndex(entries), p).value)
  {
    var es := PhoneIndex(entries)[p];
    PhoneIndexIsFilter(entries, p);
    SelectEmpty(es, HasVendorId);
    var l := Latest(es);
    var i :| 0 <= i < |es| && es[i] == l;
  }

  /** Several entries for one number that all carry the same vendor id reach the
      dialog, which selects that vendor at once. */
  lemma {:induction false} SameVendorSelectedAtOnce(cs: seq<Entry>)
    requires |cs| > 0 && HasVendorId(cs[0]) && forall e :: e in cs ==> e.vendorId == cs[0].vendorId
    ensures CandidateDialog(cs).SelectAtOnce? && CandidateDialog(cs).entry.vendorId == cs[0].vendorId
  {
    var u := UniqueCandidates(cs);
    UniqueIdsDistinct(cs);
    assert cs[0] in cs;
  }

  // ---------------------------------------------------------------- processPhoneNumber

  /** `processPhoneNumber(phone, isPriority)` on `lastProcessedPhone`: the new value of
      `lastProcessedPhone` and whether the selection runs. */
  function ProcessPhoneNumber(last: string, phone: string, isPriority: bool): (r: (string, bool))
    ensures r.1 <==> phone != "" && (phone != last || isPriority)
    ensures r.0 == if r.1 then phone else last
  {
    if phone == "" then (last, false)
    else if phone == last && !isPriority then (last, false)
    else (phone, true)
  }

  /** The same number twice in a row runs the selection once, unless the second call
      has priority. */
  lemma {:induction false} RepeatSuppressed(last: string, phone: string, priority: bool)
    requires phone != ""
    ensures ProcessPhoneNumber(last, phone, false).0 == phone
    ensures ProcessPhoneNumber(ProcessPhoneNumber(last, phone, false).0, phone, priority).1 == priority
  {
  }

  // ---------------------------------------------------------------- shouldPressEscapeKey

  /** `shouldPressEscapeKey()`: `operationMode` true is mode 2; `phoneValue` is the
      telephone search box's value, `None` when the box is absent. */
  function ShouldPressEscape(mode2: bool, phoneValue: Option<string>, tablePresent: bool, radioCount: nat): (b: bool)
    ensures mode2 ==> !b
    ensures !mode2 ==> (!b <==> phoneValue.Some? && |Trim(phoneValue.value)| > 0 && tablePresent && radioCount > 0)
  {
    if mode2 then false
    else
      var hasPhone := phoneValue.Some? && |phoneValue.value| > 0 && |Trim(phoneValue.value)| > 0;
      var hasCandidates := tablePresent && radioCount > 0;
      !(hasPhone && hasCandidates)
  }

  // ---------------------------------------------------------------- disableRows

  /** The industry column `disableRows` reads (`columnIndex`). */
  const IndustryColumn: nat := 4

  /** A table row: whether it holds a header cell, the text of its data cells, and
      whether one of them spans two rows. */
  datatype Row = Row(hasHeaderCell: bool, cells: seq<string>, spansTwo: bool)

  /** Whether a data row is greyed out. */
  function RowDisabled(r: Row, filter: string, enabled: bool): bool
    requires |r.cells| > IndustryColumn
  {
    enabled && !Contains(Trim(r.cells[IndustryColumn]), filter)
  }

  /** The styles the row loop applies from row `i` on: `Some(disabled)` for a styled
      row, `None` for a row left alone. A row whose cell spans two rows passes its
      style to the next row, which the loop then skips. */
  function StylesFrom(rows: seq<Row>, i: nat, filter: string, enabled: bool): (r: seq<Option<bool>>)
    requires i <= |rows|
    ensures |r| == |rows| - i
    decreases |rows| - i
  {
    if i == |rows| then []
    else if i == 0 && rows[0].hasHeaderCell then [None] + StylesFrom(rows, 1, filter, enabled)
    else if |rows[i].cells| > IndustryColumn then
      var d := RowDisabled(rows[i], filter, enabled);
      if rows[i].spansTwo && i + 1 < |rows| then [Some(d), Some(d)] + StylesFrom(rows, i + 2, filter, enabled)
      else [Some(d)] + StylesFrom(rows, i + 1, filter, enabled)
    else [None] + StylesFrom(rows, i + 1, filter, enabled)
  }

  function Unstyled(n: nat): (r: seq<Option<bool>>)
    ensures |r| == n && forall k :: 0 <= k < n ==> r[k] == None
  {
    if n == 0 then [] else Unstyled(n - 1) + [None]
  }

  /** `disableRows(filterValue)` on one table: nothing without a filter value. */
  function DisableRows(rows: seq<Row>, filter: string, enabled: bool): (r: seq<Option<bool>>)
    ensures |r| == |rows|
    ensures filter == "" ==> forall k :: 0 <= k < |r| ==> r[k] == None
  {
    if filter == "" then Unstyled(|rows|) else StylesFrom(rows, 0, filter, enabled)
  }

  /** With the filter off every styled row is enabled. */
  lemma {:induction false} FilterOffEnablesAll(rows: seq<Row>, i: nat, filter: string)
    requires i <= |rows|
    ensures forall k :: 0 <= k < |StylesFrom(rows, i, filter, false)| ==> StylesFrom(rows, i, filter, false)[k] != Some(true)
    decreases |rows| - i
  {
    if i < |rows| {
      if i == 0 && rows[0].hasHeaderCell {
        FilterOffEnablesAll(rows, 1, filter);
      } else if |rows[i].cells| > IndustryColumn && rows[i].spansTwo && i + 1 < |rows| {
        FilterOffEnablesAll(rows, i + 2, filter);
      } else {
        FilterOffEnablesAll(rows, i + 1, filter);
      }
    }
  }

  /** With the filter on, a data row the loop reaches is disabled exactly when its
      trimmed industry text does not contain the filter value. */
  lemma {:induction false} StyleOfReachedRow(rows: seq<Row>, i: nat, filter: string)
    requires i < |rows| && !(i == 0 && rows[0].hasHeaderCell) && |rows[i].cells| > IndustryColumn
    ensures StylesFrom(rows, i, filter, true)[0] == Some(!Contains(Trim(rows[i].cells[IndustryColumn]), filter))
  {
  }

  /** A two-row cell gives the row below the same state, and the loop goes on after
      that row. */
  lemma {:induction false} RowSpanCarriesStyle(rows: seq<Row>, i: nat, filter: string, enabled: bool)
    requires i + 1 < |rows| && !(i == 0 && rows[0].hasHeaderCell) && |rows[i].cells| > IndustryColumn
    requires rows[i].spansTwo
    ensures StylesFrom(rows, i, filter, enabled)[1] == StylesFrom(rows, i, filter, enabled)[0]
    ensures StylesFrom(rows, i, filter, enabled)[2..] == StylesFrom(rows, i + 2, filter, enabled)
  {
  }

  /** `toggleFilter()`: the flag flips and the rows are styled again with it. */
  function ToggleFilter(enabled: bool, rows: seq<Row>, filter: string): (r: (bool, seq<Option<bool>>))
    ensures r.0 == !enabled
    ensures |r.1| == |rows|
  {
    (!enabled, DisableRows(rows, filter, !enabled))
  }

  /** Toggling twice restores the flag and the styles. */
  lemma {:induction false} ToggleTwice(enabled: bool, rows: seq<Row>, filter: string)
    ensures ToggleFilter(ToggleFilter(enabled, rows, filter).0, rows, filter) == (enabled, DisableRows(rows, filter, enabled))
  {
  }
}
