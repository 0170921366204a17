/** The OCR result caches of the background script: the `Map`s behind
    `imageProcessingCache` and `imageCache`, bounded to 30 entries by evicting the
    oldest-inserted key, the cache path of `handleImageProcessing`, and
    `limitCacheSize`.

    A JavaScript `Map` iterates in insertion order, and setting a key it already
    holds replaces the value in place. The SHA-256 digest of `cacheKeySimple` is
    abstracted to its input: equal inputs give equal keys, which is all the
    properties below rely on. */
module ResultCache {
  import opened Wrappers
  import opened JsString
  import opened OcrText

  /** The entry bound of both caches. */
  const Cap: nat := 30
  /** The characters of the data URL that go into a cache key. */
  const KeySampleLength: nat := 100

  datatype Entry = Entry(key: string, value: string)

  /** A `Map` from keys to texts, entries in insertion order. */
  datatype Cache = Cache(entries: seq<Entry>)

  function Keys(c: Cache): (ks: seq<string>)
    ensures |ks| == |c.entries| && forall i :: 0 <= i < |ks| ==> ks[i] == c.entries[i].key
  {
    seq(|c.entries|, i requires 0 <= i < |c.entries| => c.entries[i].key)
  }

  /** Keys are unique, as in every `Map`. */
  predicate Valid(c: Cache) {
    forall i, j :: 0 <= i < j < |c.entries| ==> c.entries[i].key != c.entries[j].key
  }

  /** `map.get(k)`. */
  function Get(c: Cache, k: string): (r: Option<string>)
    ensures r.Some? <==> k in Keys(c)
    ensures r.Some? ==> exists i :: 0 <= i < |c.entries| && c.entries[i] == Entry(k, r.value)
    decreases |c.entries|
  {
    if |c.entries| == 0 then None
    else if c.entries[0].key == k then Some(c.entries[0].value)
    else
      var r := Get(Cache(c.entries[1..]), k);
      assert Keys(Cache(c.entries[1..])) == Keys(c)[1..];
      assert r.Some? ==> exists i :: 0 <= i < |c.entries| && c.entries[i] == Entry(k, r.value) by {
        if r.Some? {
          var i :| 0 <= i < |c.entries[1..]| && c.entries[1..][i] == Entry(k, r.value);
          assert c.entries[i + 1] == Entry(k, r.value);
        }
      }
      r
  }

  /** In a valid cache the entry of a key is its only one, so `Get` finds it. */
  lemma {:induction false} GetEntry(c: Cache, i: nat)
    requires Valid(c) && i < |c.entries|
    ensures Get(c, c.entries[i].key) == Some(c.entries[i].value)
  {
    var r := Get(c, c.entries[i].key);
    assert c.entries[i].key in Keys(c);
    var j :| 0 <= j < |c.entries| && c.entries[j] == Entry(c.entries[i].key, r.value);
  }

  /** The position of a key the cache holds. */
  function IndexOf(c: Cache, k: string): (i: nat)
    requires k in Keys(c)
    ensures i < |c.entries| && c.entries[i].key == k
    decreases |c.entries|
  {
    if c.entries[0].key == k then 0
    else
      assert Keys(Cache(c.entries[1..])) == Keys(c)[1..];
      1 + IndexOf(Cache(c.entries[1..]), k)
  }

  /** `map.set(k, v)`: a held key keeps its place with the new value, a new key is
      appended. */
  function Put(c: Cache, k: string, v: string): (r: Cache)
    requires Valid(c)
    ensures Valid(r)
    ensures k in Keys(c) ==> Keys(r) == Keys(c)
    ensures k !in Keys(c) ==> Keys(r) == Keys(c) + [k]
    ensures Get(r, k) == Some(v)
    ensures forall k' :: k' != k ==> Get(r, k') == Get(c, k')
  {
    if k in Keys(c) then
      var i := IndexOf(c, k);
      var r := Cache(c.entries[i := Entry(k, v)]);
      assert Keys(r) == Keys(c);
      GetEntry(r, i);
      PutOthers(c, r, k);
      r
    else
      var r := Cache(c.entries + [Entry(k, v)]);
      assert Keys(r) == Keys(c) + [k];
      GetEntry(r, |c.entries|);
      PutOthers(c, r, k);
      r
  }

  /** Entries of other keys are untouched by a write to `k`. */
  lemma {:induction false} PutOthers(c: Cache, r: Cache, k: string)
    requires Valid(c) && Valid(r)
    requires forall k' :: k' != k ==> (k' in Keys(r) <==> k' in Keys(c))
    requires forall i :: 0 <= i < |c.entries| && c.entries[i].key != k ==> i < |r.entries| && r.entries[i] == c.entries[i]
    ensures forall k' :: k' != k ==> Get(r, k') == Get(c, k')
  {
    forall k' | k' != k
      ensures Get(r, k') == Get(c, k')
    {
      if k' in Keys(c) {
        var i := IndexOf(c, k');
        GetEntry(c, i);
        GetEntry(r, i);
      }
    }
  }

  /** `map.delete(map.keys().next().value)`: the oldest entry goes. */
  function DropOldest(c: Cache): (r: Cache)
    requires |c.entries| > 0
    ensures Keys(r) == Keys(c)[1..]
  {
    Cache(c.entries[1..])
  }

  /** A write followed by the 30-entry check, as in `imageProcessingCache.set` and
      after `imageCache.set` in `handleImageProcessing`. */
  function Insert(c: Cache, k: string, v: string): (r: Cache)
    requires Valid(c) && |c.entries| <= Cap
    ensures Valid(r) && |r.entries| <= Cap
    ensures Get(r, k) == Some(v)
  {
    var d := Put(c, k, v);
    if |d.entries| > Cap then
      assert Keys(d)[|d.entries| - 1] == k;
      GetEntry(d, |d.entries| - 1);
      DropKeepsNewest(d, k, v);
      DropOldest(d)
    else d
  }

  /** Dropping the oldest entry keeps the newest one. */
  lemma {:induction false} DropKeepsNewest(d: Cache, k: string, v: string)
    requires Valid(d) && |d.entries| >= 2 && d.entries[|d.entries| - 1] == Entry(k, v)
    ensures Valid(DropOldest(d))
    ensures Get(DropOldest(d), k) == Some(v)
  {
    var r := DropOldest(d);
    assert r.entries[|r.entries| - 1] == Entry(k, v);
    GetEntry(r, |r.entries| - 1);
  }

  /** A new key in a full cache pushes out the oldest-inserted key and nothing else. */
  lemma {:induction false} InsertEvictsOldest(c: Cache, k: string, v: string)
    requires Valid(c) && |c.entries| == Cap && k !in Keys(c)
    ensures Keys(Insert(c, k, v)) == Keys(c)[1..] + [k]
    ensures c.entries[0].key !in Keys(Insert(c, k, v))
  {
    var r := Insert(c, k, v);
    assert Keys(r) == (Keys(c) + [k])[1..];
    assert c.entries[0].key !in Keys(c)[1..];
  }

  /** Writing a key the cache already holds refreshes its value but not its age:
      the order, and hence the next key to be evicted, stays the same. */
  lemma {:induction false} InsertExistingKeepsOrder(c: Cache, k: string, v: string)
    requires Valid(c) && |c.entries| <= Cap && k in Keys(c)
    ensures Keys(Insert(c, k, v)) == Keys(c)
  {
  }

  /** A cache that is not full loses nothing on a write. */
  lemma {:induction false} InsertBelowCapKeeps(c: Cache, k: string, v: string, other: string)
    requires Valid(c) && |c.entries| < Cap && other != k
    ensures Get(Insert(c, k, v), other) == Get(c, other)
  {
  }

  // ---------------------------------------------------------------- limitCacheSize

  /** `limitCacheSize(maxEntries)` as written: the loop bound `imageCache.size -
      maxEntries` is read again after every deletion, so the loop stops when the
      counter meets the shrinking excess, halfway. With an excess of two or more the
      cache stays over its bound: 34 entries limited to 30 keep 32. */
  method LimitCacheSizeAsWritten(c: Cache, maxEntries: nat) returns (r: Cache)
    ensures |c.entries| <= maxEntries ==> r == c
    ensures |c.entries| > maxEntries ==> r.entries == c.entries[(|c.entries| - maxEntries + 1) / 2..]
    ensures |c.entries| >= maxEntries + 2 ==> |r.entries| > maxEntries
  {
    if |c.entries| <= maxEntries {
      return c;
    }
    r := c;
    var i := 0;
    while i < |r.entries| - maxEntries
      invariant 0 <= i <= |c.entries| && r.entries == c.entries[i..]
      invariant 2 * i <= |c.entries| - maxEntries + 1
      decreases |r.entries| - maxEntries - i
    {
      r := DropOldest(r);
      assert r.entries == c.entries[i + 1..];
      i := i + 1;
    }
  }

  /** What the function is for: only the newest `maxEntries` entries remain. */
  function LimitCacheSize(c: Cache, maxEntries: nat): (r: Cache)
    ensures |r.entries| == if |c.entries| <= maxEntries then |c.entries| else maxEntries
    ensures Valid(c) ==> Valid(r)
    ensures forall i :: 0 <= i < |r.entries| ==> r.entries[i] == c.entries[|c.entries| - |r.entries| + i]
  {
    if |c.entries| <= maxEntries then c else Cache(c.entries[|c.entries| - maxEntries..])
  }

  /** The corrected limit is what the as-written loop would do had it fixed its bound
      before deleting: it removes every excess entry, oldest first, so limiting twice
      changes nothing. */
  lemma {:induction false} LimitCacheSizeIdempotent(c: Cache, maxEntries: nat)
    ensures LimitCacheSize(LimitCacheSize(c, maxEntries), maxEntries) == LimitCacheSize(c, maxEntries)
  {
  }

  // ---------------------------------------------------------------- handleImageProcessing

  /** The stored settings that enter a cache key. */
  datatype Settings = Settings(language: string, mode: string, model: string)

  /** The input of the digest in `cacheKeySimple`: the first 100 characters of the
      data URL, then the field name, language, mode and model. */
  function CacheKey(imageData: string, fieldName: string, s: Settings): (k: string)
    ensures StartsWith(k, imageData[..if |imageData| < KeySampleLength then |imageData| else KeySampleLength])
  {
    var sample := imageData[..if |imageData| < KeySampleLength then |imageData| else KeySampleLength];
    var k := sample + fieldName + s.language + s.mode + s.model;
    assert k[..|sample|] == sample;
    k
  }

  /** The `fieldType` strings `postProcessOcrResult` switches on. */
  function FieldKind(fieldName: string): FieldType {
    if fieldName == "payee-name" then PayeeName
    else if fieldName == "phone-number" then PhoneNumber
    else if fieldName == "phonetic" then Phonetic
    else if fieldName == "clipboard" then Clipboard
    else OtherField
  }

  /** What a call of `handleImageProcessing` returns and leaves behind: the text,
      whether OCR ran, and the cache afterwards. */
  datatype Handled = Handled(text: string, ranOcr: bool, cache: Cache)

  const InvalidImageMessage := "無効な画像データです"

  /** The `EMPTY_RESULT` error `processImageForOCR` throws when OCR returns blank text,
      worded for the field. */
  function EmptyResultMessage(fieldName: string): (m: string)
    ensures m != InvalidImageMessage
  {
    if fieldName == "phone-number" then "電話番号を認識できませんでした"
    else if fieldName == "payee-name" then "支払先名を認識できませんでした"
    else "テキストを認識できませんでした"
  }

  /** The cache answers the request: the check is on truthiness, so an empty stored
      text does not count. */
  predicate Hit(c: Cache, key: string) { Get(c, key).Some? && Get(c, key).value != [] }

  /** `handleImageProcessing` for a request with data URL `imageData` and field
      `fieldName`; `ocrText` is the text OCR would return for it. An error leaves the
      cache as it was: the error is thrown before `imageCache.set`. */
  function HandleImage(c: Cache, imageData: string, fieldName: string, s: Settings, ocrText: string)
    : (r: Result<Handled, string>)
    requires Valid(c) && |c.entries| <= Cap
    ensures !StartsWith(imageData, "data:image/") ==> r == Err(InvalidImageMessage)
    ensures StartsWith(imageData, "data:image/") && !Hit(c, CacheKey(imageData, fieldName, s)) && Trim(ocrText) == [] ==>
      r == Err(EmptyResultMessage(fieldName))
    ensures r.Err? <==>
      !StartsWith(imageData, "data:image/") || (!Hit(c, CacheKey(imageData, fieldName, s)) && Trim(ocrText) == [])
    ensures r.Ok? ==> Valid(r.value.cache) && |r.value.cache.entries| <= Cap
    ensures r.Ok? && !r.value.ranOcr ==>
      (r.value.cache == c && r.value.text != [] && Get(c, CacheKey(imageData, fieldName, s)) == Some(r.value.text))
    ensures r.Ok? && r.value.ranOcr ==>
      (Trim(ocrText) != [] && r.value.text == PostProcess(ocrText, FieldKind(fieldName))
       && Get(r.value.cache, CacheKey(imageData, fieldName, s)) == Some(r.value.text))
  {
    if !StartsWith(imageData, "data:image/") then Err(InvalidImageMessage)
    else
      var key := CacheKey(imageData, fieldName, s);
      match Get(c, key)
      case Some(t) =>
        if t != [] then Ok(Handled(t, false, c))
        else RunOcr(c, key, fieldName, ocrText)
      case None =>
        RunOcr(c, key, fieldName, ocrText)
  }

  /** The miss path: OCR, the blank-result check, post-processing, and the store. */
  function RunOcr(c: Cache, key: string, fieldName: string, ocrText: string): (r: Result<Handled, string>)
    requires Valid(c) && |c.entries| <= Cap
    ensures Trim(ocrText) == [] <==> r.Err?
    ensures r.Err? ==> r.error == EmptyResultMessage(fieldName)
    ensures r.Ok? ==> r.value.ranOcr && r.value.text == PostProcess(ocrText, FieldKind(fieldName))
    ensures r.Ok? ==> r.value.cache == Insert(c, key, r.value.text)
  {
    if Trim(ocrText) == [] then Err(EmptyResultMessage(fieldName))
    else
      var text := PostProcess(ocrText, FieldKind(fieldName));
      Ok(Handled(text, true, Insert(c, key, text)))
  }

  /** A cache hit returns the stored text without running OCR. */
  lemma {:induction false} HitSkipsOcr(c: Cache, imageData: string, fieldName: string, s: Settings, ocrText: string, t: string)
    requires Valid(c) && |c.entries| <= Cap && StartsWith(imageData, "data:image/")
    requires Get(c, CacheKey(imageData, fieldName, s)) == Some(t) && t != []
    ensures HandleImage(c, imageData, fieldName, s, ocrText) == Ok(Handled(t, false, c))
  {
  }

  /** Handling the same request twice runs OCR at most once: the second call is
      answered from the cache with the first call's text, whatever OCR would say. */
  lemma {:induction false} SecondRequestHits(c: Cache, imageData: string, fieldName: string, s: Settings, ocr1: string, ocr2: string)
    requires Valid(c) && |c.entries| <= Cap
    requires HandleImage(c, imageData, fieldName, s, ocr1).Ok?
    requires HandleImage(c, imageData, fieldName, s, ocr1).value.text != []
    ensures var first := HandleImage(c, imageData, fieldName, s, ocr1).value;
      HandleImage(first.cache, imageData, fieldName, s, ocr2) == Ok(Handled(first.text, false, first.cache))
  {
  }

  /** Two images whose data URLs agree on their first 100 characters share a key:
      the second is answered with the first one's text and never reaches OCR. */
  lemma {:induction false} SharedPrefixCollides(c: Cache, a: string, b: string, fieldName: string, s: Settings, ocrA: string, ocrB: string)
    requires Valid(c) && |c.entries| <= Cap
    requires |a| >= KeySampleLength && |b| >= KeySampleLength && a[..KeySampleLength] == b[..KeySampleLength]
    requires HandleImage(c, a, fieldName, s, ocrA).Ok? && HandleImage(c, a, fieldName, s, ocrA).value.text != []
    ensures var first := HandleImage(c, a, fieldName, s, ocrA).value;
      HandleImage(first.cache, b, fieldName, s, ocrB) == Ok(Handled(first.text, false, first.cache))
  {
    assert CacheKey(a, fieldName, s) == CacheKey(b, fieldName, s);
    assert a[..11] == a[..KeySampleLength][..11] && b[..11] == b[..KeySampleLength][..11];
  }

  /** An empty result is stored but never served: the same request goes to OCR again,
      and fails only when that OCR answer is blank. */
  lemma {:induction false} EmptyResultRetried(c: Cache, imageData: string, fieldName: string, s: Settings, ocr1: string, ocr2: string)
    requires Valid(c) && |c.entries| <= Cap
    requires HandleImage(c, imageData, fieldName, s, ocr1).Ok?
    requires HandleImage(c, imageData, fieldName, s, ocr1).value.text == []
    ensures var r := HandleImage(HandleImage(c, imageData, fieldName, s, ocr1).value.cache, imageData, fieldName, s, ocr2);
      && (r.Ok? ==> r.value.ranOcr)
      && (r.Err? <==> Trim(ocr2) == [])
  {
  }

  /** A request the cache cannot answer fails, with the field's wording, when OCR
      returns nothing but white space, and the cache is left as it was. */
  lemma {:induction false} BlankOcrFails(c: Cache, imageData: string, fieldName: string, s: Settings, blank: string)
    requires Valid(c) && |c.entries| <= Cap && StartsWith(imageData, "data:image/")
    requires !Hit(c, CacheKey(imageData, fieldName, s)) && AllSpace(blank)
    ensures HandleImage(c, imageData, fieldName, s, blank) == Err(EmptyResultMessage(fieldName))
  {
    TrimAllSpace(blank);
  }
}
