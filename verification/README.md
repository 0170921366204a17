# Vendor-registration helpers, modelled in Dafny

The repository holds three browser extensions. Operators use them on a receipt-verification site while they register the vendor of each receipt.

- **OCR_RegistVendor.** The operator selects a region of the receipt image. The extension rotates and crops it, shrinks it to an upload budget and sends it to a vision model. It then cleans the returned text into a phone number or a payee name. Candidates are offered in a dropdown next to the form.
- **Shortcut_RegistVendor.** This extension keeps a history of registered vendors keyed by phone number, and selects the matching vendor automatically. It disables table rows that do not match an industry filter. It backs the history up to CSV and restores it. A background worker drives the verification → registration page loop.
- **Shortcut_InputNumberDetail.** This extension adds keyboard shortcuts to the number-entry screen, with `q`/`w` double presses. It shows a tooltip with four consumption-tax calculations and their reverse suggestions. It also filters the memo suggestions and explains the memo keywords typed.

The model keeps the logic under the DOM and browser plumbing. Modules follow the source's concerns:

| module | models |
|---|---|
| `Wrappers`, `JsString` | `Option`/`Result`, and the JavaScript string operations the code relies on: `trim` with its white-space set, `includes`, `split`, `join`, ASCII-only `\d`, and `toLowerCase` |
| `PhoneFormat`, `OcrText`, `MultiField` | `formatPhoneNumber`, `postProcessOcrResult`, `removeNgWords`, `parseMultiFieldResult` and the prompt table `getPromptForModel` |
| `RequestQueue`, `VisionRetry` | `APIRequestQueue` as an explicit-time state machine, the retry loop of `extractTextWithGemini` over a sequence of attempt outcomes, and `getReadableErrorMessage` |
| `ImageBudget`, `ResultCache`, `OcrLock` | `getDataSize`/`checkImageSize`, the tiers of `compressImageToSize`, the arithmetic of `optimizeImage`, the bounded insertion-order caches, `globalOcrLock` and the per-tab processing set |
| `Geometry`, `Candidates` | `getImageTransformInfo`, the right-angle cases of `convertRegionToOriginalImageCoordinates` with their clamp, the selection-box rules, and candidate filtering in `handleOcrResult`, the two dropdowns and `streamedDockOcrHandler` |
| `VendorIndex` | the `preloadData` index, the latest entry per phone, the final `getUniqueCandidates`, `executeVendorSelection` and `showCandidateSelectionDialog`, `processPhoneNumber`, `shouldPressEscapeKey`, `disableRows`/`toggleFilter` |
| `BackupCsv`, `BackupRoundTrip`, `BackupImport`, `BackupUpload` | `escapeCSVField`, `convertToCSV`, `parseCSV`, `validateEntries`, the upload merge, and the export → import round trip |
| `Tax`, `KeyShortcuts`, `MemoMatch` | `calculateTax` and both reverse calculations, `checkMatching`, `normalizeKey`, `isDoublePress` and the key handlers, the suggestion filter, `findMatches` and the memo bubble |
| `AutoNav` | the running/count machine of the background worker, its `onUpdated` dispatch, the `checkElementB` decision and `handleVendorEntry` |

Time is passed in as a millisecond parameter. The vision model, the image encoder, the SHA-256 digest and browser storage are parameters or uninterpreted inputs. Tax rates are exact rationals: 1/10 for the standard rate and 2/25 for the reduced rate. Where the code has a defect, the members that model each code path follow the code as written, and a corrected definition sits beside them for the row of "## Findings" that names it. "## Findings" lists these defects.

`ResultCache.Insert` also stands for `imageProcessingCache.set` (OCR_RegistVendor/background.js:1044-1053), which applies the same set-then-evict-oldest rule. The final definitions of `executeVendorSelection`, `getUniqueCandidates` and `showCandidateSelectionDialog` in Shortcut_RegistVendor/content.js are the ones modelled. They are at lines 1971, 2660 and 2427, and they override earlier definitions of the same names.

## Model

| member | source | states |
|---|---|---|
| PhoneFormat.FormatPhoneNumber | OCR_RegistVendor/background.js:808-883 | empty input, or more than eleven digits, gives the empty string; every output character is a digit or a hyphen |
| PhoneFormat.FormatKeepsDigits | OCR_RegistVendor/background.js:808-883 | with at most eleven digits, removing the hyphens of the output gives back exactly the input's digits |
| PhoneFormat.GroupedUnchanged | OCR_RegistVendor/background.js:819-826 | an input already grouped 2–4/2–4/4 with at most eleven digits is returned as it is |
| PhoneFormat.FormatIdempotent | OCR_RegistVendor/background.js:808-883 | formatting an output again returns it unchanged |
| PhoneFormat.FormatTokyoExample | OCR_RegistVendor/background.js:836-838 | 0312345678 becomes 03-1234-5678 |
| PhoneFormat.FormatMobileExample | OCR_RegistVendor/background.js:863-867 | 09012345678 becomes 090-1234-5678 |
| PhoneFormat.FormatTooLongExample | OCR_RegistVendor/background.js:814-818 | twelve digits give the empty string |
| OcrText.KanaMapRange | OCR_RegistVendor/background.js:690-704 | the half-width table maps only U+FF66–FF9F, and only into the katakana block |
| OcrText.VoicingTablesAgree | OCR_RegistVendor/background.js:707-724 | every voicing base has a voiced (semi-voiced) kana in the tables, the next (second next) code point, so the base-plus-mark fallback never fires |
| OcrText.CharStages | OCR_RegistVendor/background.js:677-729 | the character stages never lengthen the text, and no emitted character is a full-width letter or digit, a full-width middle dot or full stop, or a widenable half-width kana |
| OcrText.VoicedInContext | OCR_RegistVendor/background.js:707-716 | a half-width base followed by ﾞ becomes the single voiced kana, and the text around it is processed as if the pair were absent |
| OcrText.SemiVoicedInContext | OCR_RegistVendor/background.js:718-724 | a half-width ha-row base followed by ﾟ becomes the single semi-voiced kana |
| OcrText.LoneMarksKept | OCR_RegistVendor/background.js:726-729 | a stand-alone ﾞ or ﾟ is not widened |
| OcrText.CharStagesFixAscii | OCR_RegistVendor/background.js:677-729 | plain ASCII text passes the character stages unchanged |
| OcrText.FirstWordAtIsFirst | OCR_RegistVendor/background.js:653-656 | the alternation picks the first listed word that matches at a position, and none only when no listed word matches |
| OcrText.RemoveWords | OCR_RegistVendor/background.js:780-783 | the global replacement never lengthens the text |
| OcrText.OccurrenceStartDropped | OCR_RegistVendor/background.js:780-783 | every occurrence of a listed word in the input loses at least its first character |
| OcrText.DroppedInsideOccurrence | OCR_RegistVendor/background.js:780-783 | every deleted character lies inside an occurrence of a listed word |
| OcrText.RemoveWordsNoOccurrence | OCR_RegistVendor/background.js:780-783 | a text containing no listed word is returned unchanged |
| OcrText.AlternationOrder | OCR_RegistVendor/background.js:641-656 | 医療法人社団 loses only 医療法人 and keeps 社団, because the shorter word is listed first |
| OcrText.SinglePassExample | OCR_RegistVendor/background.js:780-783 | the replacement is one pass: 株株式会社式会社 becomes 株式会社 |
| OcrText.CollapseSpaces | OCR_RegistVendor/background.js:756 | collapsing white space leaves single ASCII spaces, keeps whether the text starts and ends with white space, and adds no other character |
| OcrText.CollapseKeepsText | OCR_RegistVendor/background.js:756 | collapsing keeps every non-space character, in order |
| OcrText.CollapseFixesNormal | OCR_RegistVendor/background.js:756 | collapsing text that is already collapsed changes nothing |
| OcrText.StripLabelAppended | OCR_RegistVendor/background.js:797-801 | a trailing label followed only by white space is cut off together with the white space |
| OcrText.StripLabelAbsent | OCR_RegistVendor/background.js:797-801 | text that does not end in the label (ignoring trailing white space) is kept |
| OcrText.CleanItems | OCR_RegistVendor/background.js:786-791 | every kept list item is non-empty, trimmed and collapsed, and holds no comma when the pieces held no separator |
| OcrText.JoinItems | OCR_RegistVendor/background.js:785-793 | splitting the joined list on commas gives back exactly the cleaned items |
| OcrText.RemoveNgWords | OCR_RegistVendor/background.js:780-804 | the result is a prefix of the trimmed text, re-joined first when it is a list, and nothing is cut from it unless it ends in a colon |
| OcrText.NoColonNoLabel | OCR_RegistVendor/background.js:797-801 | trimmed text that does not end in a colon is left alone by both label replacements |
| OcrText.PlainNameKept | OCR_RegistVendor/background.js:780-804 | a name with no legal-form word, no list separator and no trailing colon comes back only trimmed |
| OcrText.PhoneField | OCR_RegistVendor/background.js:738-753 | a telephone result holds only digits, hyphens and commas |
| OcrText.PayeeField | OCR_RegistVendor/background.js:731-757 | a payee result is trimmed and has single spaces only |
| OcrText.PostProcess | OCR_RegistVendor/background.js:671-772 | empty text stays empty; payee names are trimmed and collapsed; telephone results hold only digits, hyphens and commas; other fields are never lengthened |
| OcrText.PhoneFieldIdempotent | OCR_RegistVendor/background.js:738-753 | post-processing a telephone result again changes nothing |
| OcrText.ToHiraganaAsWrittenLeaksUnassigned | OCR_RegistVendor/background.js:759-764 | the conversion as written maps ヷ (U+30F7) to U+3097, which is not a hiragana letter |
| OcrText.ToHiraganaAsWritten | OCR_RegistVendor/background.js:759-764 | as written, every character from U+30A1 to U+30FA moves down by 0x60, all others are kept, and none of that range is left |
| OcrText.AsWrittenAgreesOffExtras | OCR_RegistVendor/background.js:759-764 | on text without ヷ, ヸ, ヹ or ヺ the conversion as written and the corrected one agree |
| OcrText.ToHiragana | OCR_RegistVendor/background.js:759-764 | with the range confined to U+30A1–U+30F6, every katakana letter becomes a hiragana letter and every other character is kept |
| OcrText.HiraganaRoundTrip | OCR_RegistVendor/background.js:759-764 | converting a reading without hiragana to hiragana and back restores it |
| OcrText.PhoneticReading | OCR_RegistVendor/background.js:671-764 | a phonetic result turns every katakana letter of the cleaned text into a hiragana letter and keeps every other character |
| MultiField.FieldValue | OCR_RegistVendor/background.js:938-943 | an extracted label value never holds a line terminator |
| MultiField.ExtractLabelAsWritten | OCR_RegistVendor/background.js:938-939 | as written, a value is found only where the label occurs, and it holds no line terminator |
| MultiField.ExtractLabel | OCR_RegistVendor/background.js:938-939 | with the white space confined to the label's line, a value is found only where the label occurs, and it holds no line terminator |
| MultiField.LabelsAgreeOnOneLine | OCR_RegistVendor/background.js:938-939 | on a text without line breaks the two label searches give the same value |
| MultiField.FilterCandidates | OCR_RegistVendor/background.js:963-971 | every kept company candidate is trimmed and passes the filter |
| MultiField.FilterCandidatesMembers | OCR_RegistVendor/background.js:963-971 | the kept candidates are exactly the trimmed pieces that pass the filter |
| MultiField.CandidateList | OCR_RegistVendor/background.js:959-979 | every piece of a multi-candidate company value passes the filter; a value without a separator is kept as is |
| MultiField.JoinedCandidatesNotLabel | OCR_RegistVendor/background.js:963-976 | a join of kept candidates is never the bare telephone label |
| MultiField.ParseMultiField | OCR_RegistVendor/background.js:929-999 | both keys are returned; the telephone value holds only digits, hyphens and commas; the company value is never the bare telephone label; every piece of a company list passes the filter |
| MultiField.CompanyLineAt | OCR_RegistVendor/background.js:938 | a company line at the start of the text is found and its value is read, trimmed |
| MultiField.PhoneLineAt | OCR_RegistVendor/background.js:939 | the first telephone line is found and its value is read, trimmed |
| MultiField.AnswerRoundTrip | OCR_RegistVendor/background.js:938-943 | reading back an answer in the prompted two-line format gives both texts, trimmed |
| MultiField.BlankCompanyCapturesPhoneLine | OCR_RegistVendor/background.js:938 | with the label expression as written, a blank company line captures the whole telephone line as the company name |
| MultiField.PhoneLabelChecksDead | OCR_RegistVendor/background.js:955-988 | a post-processed telephone value never looks like the company label, so those two checks never fire |
| MultiField.Checked | OCR_RegistVendor/background.js:952-979 | the telephone value passes through; the company value is never the bare telephone label; a company value with a comma is a list whose every name passes the filter; a single name that is not the label is kept as it is |
| MultiField.ListValue | OCR_RegistVendor/background.js:961-979 | a company list is rewritten as the comma-join of its names that pass the filter, so every piece passes and the value is never the bare telephone label |
| MultiField.ParseAnswer | OCR_RegistVendor/background.js:929-999 | parsing an answer in the prompted format gives the post-processed telephone text, the post-processed company name when it is a single name, and an empty company value for a blank company line |
| MultiField.GetPromptForModel | OCR_RegistVendor/background.js:499-611 | every payee prompt, for every model, language and mode, asks for the 会社名:/電話番号: lines the parser reads, and every plain-text prompt opens with the language introduction |
| MultiField.PayeePromptHas | OCR_RegistVendor/background.js:499-611 | each of the payee prompt variants holds the two-line answer format |
| MultiField.FieldPromptsIgnoreSettings | OCR_RegistVendor/background.js:499-611 | the telephone and payee prompts depend on the model only |
| MultiField.TextPromptNamesLanguage | OCR_RegistVendor/background.js:499-611 | the plain-text prompts open by naming the configured language |
| MultiField.AccurateModeMatters | OCR_RegistVendor/background.js:499-611 | the accurate mode lengthens the plain-text prompt exactly for the models whose prompt reads the mode |
| RequestQueue.Enqueue | OCR_RegistVendor/background.js:206-211 | a new task joins the end of the queue; the busy flag and the last settle time are unchanged |
| RequestQueue.StartTime | OCR_RegistVendor/background.js:221-224 | a task starts no earlier than now and no earlier than 500 ms after the previous task settled, and at exactly one of those two times |
| RequestQueue.Poll | OCR_RegistVendor/background.js:213-224 | a task is taken exactly when none is in flight and one is waiting; it is the head of the queue, the queue becomes busy, and the start time respects the spacing |
| RequestQueue.Settle | OCR_RegistVendor/background.js:230-232 | settling a task, whether it succeeded or failed, frees the queue, records the settle time and keeps the waiting tasks |
| RequestQueue.SingleFlight | OCR_RegistVendor/background.js:213-216 | while a task is in flight, polling again starts nothing and changes nothing |
| RequestQueue.EnqueueWhileBusy | OCR_RegistVendor/background.js:206-216 | a task added while another is in flight waits at the end of the queue |
| RequestQueue.DrainSchedule | OCR_RegistVendor/background.js:213-235 | the queue runs its tasks in arrival order, each keeping its own outcome, each starting at least 500 ms after the previous one settled |
| RequestQueue.NoOverlap | OCR_RegistVendor/background.js:213-235 | no two tasks overlap in time |
| RequestQueue.RunQueue | OCR_RegistVendor/background.js:213-235 | running the queue dry follows that schedule, leaves the queue empty and idle, and records the last task's settle time |
| VisionRetry.AttemptResult | OCR_RegistVendor/background.js:410-457 | an attempt succeeds exactly when the answer has a non-empty text, and returns that text; a failed HTTP response is thrown as a temporary limit or as an API error |
| VisionRetry.ExtractText | OCR_RegistVendor/background.js:378-487 | at most two attempts are made; the result is the last attempt's; every earlier attempt failed temporarily; stopping early means a failure that is not temporary; the single retry waits 1000 ms |
| VisionRetry.RetryDelayGrows | OCR_RegistVendor/background.js:475 | the retry delay formula starts at 1000 ms and grows by half each attempt |
| VisionRetry.BusyResponseRetried | OCR_RegistVendor/background.js:431-472 | a 429, a 5xx or a busy message in a failed response is retried |
| VisionRetry.TimeoutRetried | OCR_RegistVendor/background.js:399-472 | a timed-out request is retried |
| VisionRetry.ClientErrorNotRetried | OCR_RegistVendor/background.js:442-482 | any other failed response is thrown as an API error and not retried |
| VisionRetry.ClientTimeoutWordRetried | OCR_RegistVendor/background.js:462-468 | a client error whose message mentions a timeout is still retried |
| VisionRetry.ReadableMessagesDistinct | OCR_RegistVendor/background.js:619-636 | none of the four fixed messages starts like the generic one |
| VisionRetry.ReadableError | OCR_RegistVendor/background.js:613-636 | no error gives its own fixed message; busy words come first, then rate limits; the generic message is used exactly when no busy, rate-limit, key or network word occurs |
| VisionRetry.BusyResponseReadsBusy | OCR_RegistVendor/background.js:619-621 | a response thrown as a temporary limit reads as the busy message |
| VisionRetry.PlainMessageReadsGeneric | OCR_RegistVendor/background.js:635-636 | a message without any of the keywords is shown after the generic prefix |
| VisionRetry.TimeoutReadsGeneric | OCR_RegistVendor/background.js:631-636 | the Japanese timeout message lacks the English word, so it is shown as a generic error rather than a network error |
| VisionRetry.KeyMessageReads | OCR_RegistVendor/background.js:627-629 | a message containing the missing-key text reads as the invalid-key message |
| VisionRetry.MissingKeyReads | OCR_RegistVendor/background.js:627-629 | the missing-key message itself reads as the invalid-key message |
| ImageBudget.DataSize | OCR_RegistVendor/background.js:1386-1391 | the estimated size is three quarters of the base64 part's length in MiB, never negative, and zero for a missing URL |
| ImageBudget.CheckImageSize | OCR_RegistVendor/background.js:252-270 | a missing URL is invalid; otherwise the estimate is returned when it is at most 15 MB and reported in the error when it is larger |
| ImageBudget.CheckImageSizeLength | OCR_RegistVendor/background.js:257-266 | the 15 MB limit is a base64 part of at most 20 971 520 characters |
| ImageBudget.Compressed | OCR_RegistVendor/background.js:278-311 | the compression either fails with its fixed message or returns an image within the target |
| ImageBudget.CompressedFirstFit | OCR_RegistVendor/background.js:285-310 | compression succeeds exactly when some tier's output fits, and then returns the first tier's output that fits; tiers that threw are skipped |
| ImageBudget.CompressImageToSize | OCR_RegistVendor/background.js:278-311 | the loop asks the tiers in order, stops at the first that fits and returns it, and asks all four when none fits |
| ImageBudget.TiersDecrease | OCR_RegistVendor/background.js:282-283 | each tier has a lower quality and a smaller size limit than the one before, and a tier's quality is used as given |
| ImageBudget.PrepareImage | OCR_RegistVendor/background.js:328-350 | a URL that is not an image is refused; an image within the limit is used as it is; an oversized one is replaced by a compressed image within 10 MB; whatever is used passes the size check |
| ImageBudget.OversizedUsesFirstFit | OCR_RegistVendor/background.js:336-343 | an oversized image is replaced by the first tier's output when that fits |
| ImageBudget.QuarterTurnOddRightAngle | OCR_RegistVendor/background.js:1188 | a rotation counts as a quarter turn exactly when it is an odd multiple of 90 degrees, for either sign |
| ImageBudget.MaxDimension | OCR_RegistVendor/background.js:1191 | the size limit is positive whether or not one is requested |
| ImageBudget.TargetSize | OCR_RegistVendor/background.js:1192-1218 | an image within the limit keeps its size; a larger one gets its longer side set to the limit and the other side scaled in proportion, rounded |
| ImageBudget.TargetSizeIgnoresQuarter | OCR_RegistVendor/background.js:1196-1218 | the two branches for quarter turns and other rotations compute the same target size |
| ImageBudget.CanvasSize | OCR_RegistVendor/background.js:1221-1224 | the canvas exchanges width and height for a quarter turn and is the target size otherwise |
| ImageBudget.QuarterCanvasFits | OCR_RegistVendor/background.js:1192-1224 | for a quarter turn the canvas width is the target height, so it stays within the limit whenever the image had to be scaled |
| ImageBudget.Clamp | OCR_RegistVendor/background.js:1360-1362 | the result is a byte: the rounded value inside 0..255, 0 below and 255 above |
| ImageBudget.ClampMonotone | OCR_RegistVendor/background.js:1360-1362 | clamping keeps the order of its inputs |
| ImageBudget.Stretch | OCR_RegistVendor/background.js:1267 | one contrast-adjusted channel is always a byte |
| ImageBudget.StretchFixedPoints | OCR_RegistVendor/background.js:1267 | mid-grey 128 is left alone by any factor, and factor 1 leaves every byte alone |
| ImageBudget.StretchSpreads | OCR_RegistVendor/background.js:1267 | a factor of at least 1 moves every channel away from mid-grey |
| ImageBudget.ApplyContrast | OCR_RegistVendor/background.js:1262-1270 | the pixel data keeps its length; alpha bytes are untouched and every colour byte is stretched |
| ImageBudget.Quality | OCR_RegistVendor/background.js:1276-1278 | a requested quality is used; otherwise it is 0.88 exactly when the canvas has more than 800 000 pixels, and 0.95 if not |
| ResultCache.Get | OCR_RegistVendor/background.js:1075 | a lookup finds a value exactly when the key is stored, and the value is the one stored with it |
| ResultCache.GetEntry | OCR_RegistVendor/background.js:1075 | with unique keys, looking up a stored key gives the value stored with it |
| ResultCache.Put | OCR_RegistVendor/background.js:1101 | setting a stored key keeps the insertion order and setting a new one appends it; the key then maps to the value and no other key changes |
| ResultCache.DropOldest | OCR_RegistVendor/background.js:1104-1107 | the first inserted key is the one removed |
| ResultCache.Insert | OCR_RegistVendor/background.js:1101-1107 | after setting and trimming, the cache keeps unique keys and at most 30 entries, and the new key maps to the new value |
| ResultCache.DropKeepsNewest | OCR_RegistVendor/background.js:1104-1107 | trimming never removes the entry just set |
| ResultCache.InsertEvictsOldest | OCR_RegistVendor/background.js:1101-1107 | a new key in a full cache evicts exactly the oldest key and joins at the end |
| ResultCache.InsertExistingKeepsOrder | OCR_RegistVendor/background.js:1101 | updating a stored key keeps the key order |
| ResultCache.InsertBelowCapKeeps | OCR_RegistVendor/background.js:1101-1107 | below the limit, setting a key leaves every other key's value alone |
| ResultCache.LimitCacheSizeAsWritten | OCR_RegistVendor/background.js:1024-1033 | the loop as written keeps the cache when it is within the limit and otherwise removes only the oldest half of the excess, rounded up, so an excess of two or more leaves the cache over its bound |
| ResultCache.LimitCacheSize | OCR_RegistVendor/background.js:1024-1033 | the intended trim keeps the newest entries, as many as the limit allows, in order, with unique keys |
| ResultCache.LimitCacheSizeIdempotent | OCR_RegistVendor/background.js:1024-1033 | trimming twice trims no more than once |
| ResultCache.CacheKey | OCR_RegistVendor/background.js:1140-1146 | the key begins with the first 100 characters of the image data |
| ResultCache.HandleImage | OCR_RegistVendor/background.js:1063-1117 | non-image data is refused; a non-empty cached text is returned without OCR and the cache unchanged; otherwise OCR runs, its text is post-processed for the field and stored under the key, and the cache stays within 30 entries |
| ResultCache.RunOcr | OCR_RegistVendor/background.js:1087-1107 | a blank OCR answer fails with the field's message; otherwise the text is post-processed for the field, returned and stored under the key |
| ResultCache.EmptyResultMessage | OCR_RegistVendor/background.js:1455-1466 | the message for an empty answer names the field and is never the invalid-image message |
| ResultCache.BlankOcrFails | OCR_RegistVendor/background.js:1455-1466 | on a miss, an OCR answer of only white space fails with the field's message |
| ResultCache.HitSkipsOcr | OCR_RegistVendor/background.js:1074-1080 | a non-empty cached text is returned as it is |
| ResultCache.SecondRequestHits | OCR_RegistVendor/background.js:1074-1107 | asking again for the same image and field returns the first answer without OCR |
| ResultCache.SharedPrefixCollides | OCR_RegistVendor/background.js:1140-1146 | two images that agree on their first 100 characters share an answer |
| ResultCache.EmptyResultRetried | OCR_RegistVendor/background.js:1077 | an empty answer is not treated as a hit, so OCR runs again |
| OcrLock.Acquire | OCR_RegistVendor/streamed-dock-integration.js:36-53 | acquiring a held lock fails and changes nothing; acquiring a free one succeeds, takes the lock and schedules a release ten seconds later |
| OcrLock.Release | OCR_RegistVendor/streamed-dock-integration.js:56-61 | releasing always leaves the lock free and keeps the scheduled timers |
| OcrLock.ReleaseIdempotent | OCR_RegistVendor/streamed-dock-integration.js:56-61 | releasing twice is the same as releasing once |
| OcrLock.AcquireExclusive | OCR_RegistVendor/streamed-dock-integration.js:36-61 | after a successful acquire a second one fails, and succeeds again after a release |
| OcrLock.Advance | OCR_RegistVendor/streamed-dock-integration.js:44-49 | the timers that are due fire and are gone, and the lock is free if any fired; with none due nothing changes |
| OcrLock.HeldAtMostTenSeconds | OCR_RegistVendor/streamed-dock-integration.js:44-49 | ten seconds after a successful acquire the lock is free |
| OcrLock.StaleTimerReleasesLaterHolder | OCR_RegistVendor/streamed-dock-integration.js:36-61 | the first holder's timer frees a second holder that has had the lock for less than ten seconds |
| OcrLock.SetTabProcessing | OCR_RegistVendor/background.js:10-20 | marking a tab sets its busy flag to the given value and leaves every other tab as it was |
| OcrLock.BeginTabIgnoresBusy | OCR_RegistVendor/background.js:1723-1729 | starting a request marks the tab busy whether or not it already was |
| OcrLock.FinishClears | OCR_RegistVendor/background.js:2059-2075 | finishing the request, or closing the tab, leaves the tab not busy and every other tab as it was |
| Geometry.JsRem | OCR_RegistVendor/streamed-dock-integration.js:2729 | the remainder keeps the dividend's sign and stays strictly inside the divisor |
| Geometry.NormalizeRotation | OCR_RegistVendor/streamed-dock-integration.js:2729 | the normalised rotation lies in [0, 360) |
| Geometry.NormalizeRotationResidue | OCR_RegistVendor/streamed-dock-integration.js:2729 | the double remainder is the mathematical residue modulo 360, negative angles included |
| Geometry.TransformInfo | OCR_RegistVendor/streamed-dock-integration.js:2728-2771 | the rotation is normalised; a quarter turn is 90 or 270 degrees; a quarter turn exchanges the natural sides in the scales, other angles scale each axis by its own side |
| Geometry.Convert | OCR_RegistVendor/streamed-dock-integration.js:2787-2862 | without rotation or with a half turn each extent is scaled along its own axis; a quarter turn exchanges the extents |
| Geometry.QuarterTurnPeriodic | OCR_RegistVendor/streamed-dock-integration.js:2729-2745 | whole extra turns change nothing in the transform |
| Geometry.ConvertUnrotated | OCR_RegistVendor/streamed-dock-integration.js:2787-2822 | without rotation the region is made relative to the image and scaled per axis |
| Geometry.ConvertQuarter | OCR_RegistVendor/streamed-dock-integration.js:2824-2862 | a quarter turn exchanges the extents and turns the centre's offset back by a quarter, in the direction the angle says |
| Geometry.ConvertHalfTurn | OCR_RegistVendor/streamed-dock-integration.js:2838-2849 | a half turn keeps the extents and negates both centre offsets |
| Geometry.HalfTurnReflectsUnrotated | OCR_RegistVendor/streamed-dock-integration.js:2814-2849 | the half-turn region is the unrotated one reflected through the image centre |
| Geometry.QuarterTurnsReflect | OCR_RegistVendor/streamed-dock-integration.js:2824-2862 | the 270-degree region is the 90-degree one reflected through the image centre |
| Geometry.WholeDisplayWholeImage | OCR_RegistVendor/streamed-dock-integration.js:2787-2822 | selecting the whole unrotated display selects the whole image |
| Geometry.ClampToImage | OCR_RegistVendor/streamed-dock-integration.js:2886-2889 | the clamped region starts inside the image, ends within it, never grows, and a region already inside keeps its position and extent |
| Geometry.ClampKeepsExtentsNonNegative | OCR_RegistVendor/streamed-dock-integration.js:2886-2889 | clamping never gives a negative extent |
| Geometry.RoundingBreaksClamp | OCR_RegistVendor/streamed-dock-integration.js:2892-2895 | rounding the four numbers separately can end the region one pixel past the image |
| Geometry.RoundInside | OCR_RegistVendor/streamed-dock-integration.js:2886-2895 | the corrected rounding stays within the image, never widens, and agrees with the original rounding whenever that stays within the image |
| Geometry.RoundInsideAtMostOnePixel | OCR_RegistVendor/streamed-dock-integration.js:2892-2895 | the corrected rounding loses at most one pixel per extent |
| Geometry.DragBox | OCR_RegistVendor/streamed-dock-integration.js:2537-2546 | the box spans from the smaller to the larger coordinate on each axis |
| Geometry.MouseUp | OCR_RegistVendor/streamed-dock-integration.js:2560-2577 | a selection is accepted exactly when both extents are at least ten pixels, and an accepted one is at least ten pixels each way |
| Geometry.DragAccepted | OCR_RegistVendor/streamed-dock-integration.js:2537-2569 | a drag is accepted exactly when it moved at least ten pixels along both axes |
| Candidates.ListedPhones | OCR_RegistVendor/streamed-dock-integration.js:3487-3499 | a candidate is exactly the cleaned form of one comma-separated piece that has seven to twelve digits |
| Candidates.PayeePieces | OCR_RegistVendor/streamed-dock-integration.js:3544-3546 | every payee piece is non-empty and already trimmed |
| Candidates.HandlePhoneList | OCR_RegistVendor/streamed-dock-integration.js:3483-3519 | a telephone list is refused exactly when no piece is a candidate; a single distinct candidate is filled; several distinct ones open the dropdown with exactly those candidates |
| Candidates.HandleLonePhone | OCR_RegistVendor/streamed-dock-integration.js:3520-3534 | a lone telephone answer is refused exactly when its cleaned form lacks nine to twelve digits, and otherwise the cleaned form is filled |
| Candidates.HandlePayee | OCR_RegistVendor/streamed-dock-integration.js:3537-3572 | a payee list with several distinct names opens the dropdown with exactly those names; a list of one name fills it; anything else fills the trimmed answer |
| Candidates.HandleOcrResult | OCR_RegistVendor/streamed-dock-integration.js:3476-3578 | an empty answer is ignored; only the telephone field is refused or opens the telephone dropdown, only the payee field opens the payee dropdown; other fields fill the trimmed answer |
| Candidates.SeparatorRelaxesLength | OCR_RegistVendor/streamed-dock-integration.js:3494-3530 | seven or eight digits are refused alone but filled with a comma after them |
| Candidates.TrailingCommaListed | OCR_RegistVendor/streamed-dock-integration.js:3483-3519 | the only candidate of a digit run with a trailing comma is the digit run |
| Candidates.CandidateList | OCR_RegistVendor/streamed-dock-integration.js:3980-3993 | a list is used as it is; a text is split on comma, ideographic comma or semicolon, or kept whole |
| Candidates.HalfDigits | OCR_RegistVendor/streamed-dock-integration.js:4013-4015 | the conversion keeps the length, maps each full-width digit to its ASCII digit and leaves no full-width digit |
| Candidates.Judge | OCR_RegistVendor/streamed-dock-integration.js:4018-4044 | a normalised candidate passes exactly when it has seven to eleven digits, and passes unchanged |
| Candidates.ScreenAsWritten | OCR_RegistVendor/streamed-dock-integration.js:3999-4045 | a candidate screened as written has seven to eleven digits |
| Candidates.ConversionDeadAsWritten | OCR_RegistVendor/streamed-dock-integration.js:4009-4015 | after the cleaning as written the full-width conversion never changes anything |
| Candidates.FullWidthNumberLostAsWritten | OCR_RegistVendor/streamed-dock-integration.js:4009-4015 | a number in full-width digits is dropped as written |
| Candidates.FullWidthTokyoNumber | OCR_RegistVendor/streamed-dock-integration.js:3999-4045 | a ten-digit number in full-width digits is dropped as written and accepted, in ASCII, once converted first |
| Candidates.Screen | OCR_RegistVendor/streamed-dock-integration.js:3999-4045 | a candidate screened with the conversion first has seven to eleven digits |
| Candidates.ScreenOf | OCR_RegistVendor/streamed-dock-integration.js:3999-4045 | with either order of the conversion, a value passes only with seven to eleven digits |
| Candidates.ScreenIgnoresWidth | OCR_RegistVendor/streamed-dock-integration.js:4009-4015 | once converted first, a full-width number and its ASCII form are screened alike |
| Candidates.FullWidthNumberAccepted | OCR_RegistVendor/streamed-dock-integration.js:4009-4044 | once converted first, seven to eleven full-width digits are accepted as their ASCII form |
| Candidates.DigitsScreened | OCR_RegistVendor/streamed-dock-integration.js:3999-4045 | seven to eleven ASCII digits pass both screens unchanged |
| Candidates.Passing | OCR_RegistVendor/streamed-dock-integration.js:3998-4046 | the kept values are exactly the screen's values for some candidate |
| Candidates.Screened | OCR_RegistVendor/streamed-dock-integration.js:3998-4046 | the screened values are exactly those some candidate passes with, each with seven to eleven digits |
| Candidates.OfferPhones | OCR_RegistVendor/streamed-dock-integration.js:4048-4125 | nothing valid gives the warning; a missing field gives its error exactly when something is valid; a single number is entered; several distinct numbers are offered, exactly the valid ones |
| Candidates.PhoneNumberDropdown | OCR_RegistVendor/streamed-dock-integration.js:3973-4125 | the warning comes exactly when no candidate passes the screen; an entered number is the only screened value; the offered numbers are exactly the screened values, distinct, each with seven to eleven digits |
| Candidates.IsValidPhoneNumber | OCR_RegistVendor/streamed-dock-integration.js:3588-3606 | a number is valid exactly when it is non-empty and has seven to eleven digits |
| Candidates.DropdownOffersValidNumbers | OCR_RegistVendor/streamed-dock-integration.js:3588-3606 | every number the telephone dropdown enters or offers passes the validity check |
| Candidates.TwelveDigitsOnlyInListPath | OCR_RegistVendor/streamed-dock-integration.js:4025-4041 | a twelve-digit number with a trailing comma is filled by the result handler but dropped by the dropdown |
| Candidates.TwelveDigitsNotRecognised | OCR_RegistVendor/streamed-dock-integration.js:4025-4041 | twelve ASCII digits alone are not recognised by the dropdown, whichever screen it uses |
| Candidates.FullWidthDropdown | OCR_RegistVendor/streamed-dock-integration.js:4009-4044 | a full-width number of seven to eleven digits is not recognised as written, and is filled in ASCII once converted first |
| Candidates.PayeeHalfChar | OCR_RegistVendor/streamed-dock-integration.js:4285-4288 | a converted character is never a full-width letter, digit or middle dot |
| Candidates.PayeeHalfWidth | OCR_RegistVendor/streamed-dock-integration.js:4285-4288 | the conversion keeps the length and leaves only half-width characters of that class |
| Candidates.PayeeCandidates | OCR_RegistVendor/streamed-dock-integration.js:4280-4289 | payee candidates are non-empty and half width, and there are none exactly when every name is blank |
| Candidates.PayeeCandidateFromName | OCR_RegistVendor/streamed-dock-integration.js:4280-4289 | a candidate is exactly the half-width form of a non-blank trimmed name |
| Candidates.OfferPayees | OCR_RegistVendor/streamed-dock-integration.js:4292-4320 | no candidate gives the error; a single distinct name is entered before the field is looked up; several are offered, exactly the candidates, when the field exists |
| Candidates.PayeeNameDropdown | OCR_RegistVendor/streamed-dock-integration.js:4278-4320 | the error comes exactly when every name is blank; an entered name is a candidate, and the only one when the field exists; the offered names are exactly the candidates, distinct |
| Candidates.DockPhone | OCR_RegistVendor/background.js:1823-1861 | an empty text does nothing; a text without a separator is sent whole; a list is sent as its trimmed pieces holding a digit, and only when there is one |
| Candidates.DockPayee | OCR_RegistVendor/background.js:1864-1910 | an empty text does nothing; a text without a separator is filled as it is; several distinct names are sent, exactly the trimmed non-empty pieces |
| Candidates.PayeeSplitAgrees | OCR_RegistVendor/background.js:1864-1910 | the background and content scripts split a payee list alike; a lone name is filled untrimmed by one and trimmed by the other |
| Candidates.DockPhoneThenDropdown | OCR_RegistVendor/background.js:1823-1861 | whatever the dropdown enters from a dock list is a screened piece, and whatever it offers has seven to eleven digits |
| VendorIndex.Normalize | Shortcut_RegistVendor/content.js:1371-1375 | a stored entry keeps only the digits of its phone number and is otherwise unchanged |
| VendorIndex.EntriesFor | Shortcut_RegistVendor/content.js:1377-1383 | the reference list for a number holds only entries with that number |
| VendorIndex.PhoneIndexIsFilter | Shortcut_RegistVendor/content.js:1367-1383 | the index has a number exactly when it is non-empty and some entry has it, and then holds exactly those entries in storage order |
| VendorIndex.VendorIdMap | Shortcut_RegistVendor/content.js:1385-1388 | every id in the vendor map is non-empty and maps to an entry with that id |
| VendorIndex.VendorIdMapLast | Shortcut_RegistVendor/content.js:1385-1388 | the vendor map keeps the last stored entry with each id |
| VendorIndex.Latest | Shortcut_RegistVendor/content.js:1397-1402 | the newest entry is one of the entries and no entry is newer |
| VendorIndex.LatestIsFirstNewest | Shortcut_RegistVendor/content.js:1397-1402 | among equally new entries the first wins |
| VendorIndex.LatestByPhone | Shortcut_RegistVendor/content.js:1392-1404 | a number has a newest entry exactly when the index holds entries for it, and no entry for it is newer |
| VendorIndex.IdPosition | Shortcut_RegistVendor/content.js:2670 | the position is the first entry with the id, or the end when none has it |
| VendorIndex.Upsert | Shortcut_RegistVendor/content.js:2664-2674 | one step keeps only known entries or the new one, appends a new id and keeps the id order otherwise |
| VendorIndex.UniqueCandidates | Shortcut_RegistVendor/content.js:2660-2678 | every kept entry is a candidate with a vendor id |
| VendorIndex.UniqueIds | Shortcut_RegistVendor/content.js:2660-2678 | the kept ids are those of the candidates with an id, each once, in order of first appearance |
| VendorIndex.UniqueIdsDistinct | Shortcut_RegistVendor/content.js:2660-2678 | the kept entries have distinct ids |
| VendorIndex.WithId | Shortcut_RegistVendor/content.js:2664-2668 | the candidates with a given id are exactly those entries |
| VendorIndex.AbsentIdHasNoCandidates | Shortcut_RegistVendor/content.js:2660-2678 | an id missing from the result belongs to no candidate |
| VendorIndex.UniqueIsLatestPerId | Shortcut_RegistVendor/content.js:2669-2673 | the entry kept for each id is the newest candidate with that id, the first on ties |
| VendorIndex.NewIdIsLatest | Shortcut_RegistVendor/content.js:2669-2673 | an id seen for the first time keeps the entry that brought it |
| VendorIndex.SortNewestFirst | Shortcut_RegistVendor/content.js:2530-2534 | the sorted candidates are the same entries, newest first |
| VendorIndex.SortNewestFirstPermutes | Shortcut_RegistVendor/content.js:2530-2534 | sorting neither loses nor adds an entry |
| VendorIndex.InsertNewest | Shortcut_RegistVendor/content.js:2530-2534 | inserting into a sorted list keeps it sorted and adds exactly the new entry |
| VendorIndex.InsertNewestPermutes | Shortcut_RegistVendor/content.js:2530-2534 | insertion adds the new entry to the multiset and nothing else |
| VendorIndex.InsertNewestStable | Shortcut_RegistVendor/content.js:2530-2534 | the inserted entry follows every entry with the same timestamp |
| VendorIndex.SortNewestFirstStable | Shortcut_RegistVendor/content.js:2530-2534 | entries with the same timestamp keep their relative order, as the stable array sort keeps it |
| VendorIndex.CandidateDialog | Shortcut_RegistVendor/content.js:2427-2537 | no dialog exactly when no candidate has an id; a single vendor is selected at once; otherwise the dialog lists the unique candidates, newest first |
| VendorIndex.CandidateCount | Shortcut_RegistVendor/content.js:2432-2446 | there are no unique candidates exactly when no candidate has an id, and one exactly when all with an id share it |
| VendorIndex.SameVendorSelectedAtOnce | Shortcut_RegistVendor/content.js:2441-2446 | several entries of one vendor are selected at once |
| VendorIndex.ExecuteVendorSelection | Shortcut_RegistVendor/content.js:1971-2026 | without vendor radios nothing is selected; otherwise the entries stored under the number's digits decide |
| VendorIndex.Decide | Shortcut_RegistVendor/content.js:1986-2026 | no entries means not found; entries without any id mean no valid id; one entry with an id is selected; several open the dialog over them |
| VendorIndex.LatestFallbackHasNoId | Shortcut_RegistVendor/content.js:2015-2023 | the fallback to the newest entry is reached only when no entry has an id, so it always reports the missing id |
| VendorIndex.ProcessPhoneNumber | Shortcut_RegistVendor/content.js:1708-1725 | the selection runs exactly for a non-empty number that differs from the last one or has priority, and then the number is remembered |
| VendorIndex.RepeatSuppressed | Shortcut_RegistVendor/content.js:1708-1714 | the same number twice in a row runs the selection once, unless the second has priority |
| VendorIndex.ShouldPressEscape | Shortcut_RegistVendor/content.js:25-50 | mode 2 never presses Escape; mode 1 leaves the page alone exactly when the phone field holds a non-blank number and the vendor table has radios |
| VendorIndex.StylesFrom | Shortcut_RegistVendor/content.js:249-280 | the row loop gives one style decision per remaining row |
| VendorIndex.Unstyled | Shortcut_RegistVendor/content.js:239 | rows left alone carry no style |
| VendorIndex.DisableRows | Shortcut_RegistVendor/content.js:238-282 | one decision per row, and none at all without a filter value |
| VendorIndex.FilterOffEnablesAll | Shortcut_RegistVendor/content.js:266-268 | with the filter off no row is greyed out |
| VendorIndex.StyleOfReachedRow | Shortcut_RegistVendor/content.js:259-271 | with the filter on, a reached data row is greyed out exactly when its trimmed industry cell does not contain the filter value |
| VendorIndex.RowSpanCarriesStyle | Shortcut_RegistVendor/content.js:273-278 | a two-row cell gives the next row the same style and the loop resumes after it |
| VendorIndex.ToggleFilter | Shortcut_RegistVendor/content.js:285-300 | toggling flips the flag and restyles every row |
| VendorIndex.ToggleTwice | Shortcut_RegistVendor/content.js:285-300 | toggling twice restores the flag and the styles |
| BackupCsv.EscapeField | Shortcut_RegistVendor/popup.js:400-417 | a value that needs no quoting is written as it is; one that does is wrapped in double quotes |
| BackupCsv.EscapeRoundTrip | Shortcut_RegistVendor/popup.js:400-417 | undoing the quoting gives back the value, for every value |
| BackupCsv.ParseRowAsWritten | Shortcut_RegistVendor/popup.js:341-355 | the quote-toggling loop gives at least one value and drops every double quote |
| BackupCsv.ReimportLineAsWritten | Shortcut_RegistVendor/popup.js:338-355 | an exported line read back by the loop gives each value with its quotes removed and trimmed |
| BackupCsv.ValuesAsWritten | Shortcut_RegistVendor/popup.js:361-366 | the quote-stripping replace never changes a value the loop produced |
| BackupCsv.QuoteEscaped | Shortcut_RegistVendor/popup.js:413-414 | a value holding a double quote is written with the quote doubled, and undoing that gives it back |
| BackupCsv.QuoteLostAsWritten | Shortcut_RegistVendor/popup.js:338-366 | a value holding a double quote is read back without it |
| BackupCsv.ParseRow | Shortcut_RegistVendor/popup.js:341-355 | the corrected row reader gives at least one value |
| BackupCsv.ReimportLine | Shortcut_RegistVendor/popup.js:338-355 | read with doubled quotes honoured, an exported line gives back its values, trimmed |
| BackupCsv.Values | Shortcut_RegistVendor/popup.js:385-391 | an entry's row has one value per exported column, in column order, missing fields empty |
| BackupCsv.RowLines | Shortcut_RegistVendor/popup.js:385-393 | one line per entry, each its escaped row |
| BackupCsv.MissingHeaders | Shortcut_RegistVendor/popup.js:324-332 | a required column is reported missing exactly when no header is its name or an alias of its field |
| BackupCsv.KeysOf | Shortcut_RegistVendor/popup.js:362-363 | every header is renamed to its field name, or kept when it has none |
| BackupCsv.BuildEntry | Shortcut_RegistVendor/popup.js:361-370 | a built entry always has a timestamp, non-empty whenever the current time is |
| BackupCsv.BuildEntries | Shortcut_RegistVendor/popup.js:340-373 | the rows build exactly when each has as many values as there are headers, one entry per row in order; otherwise the error is a field-count error |
| BackupCsv.FirstBadRowReported | Shortcut_RegistVendor/popup.js:357-358 | the error names the first row with the wrong field count, by its position among the non-blank data rows plus 2, so the header counts as line 1 and blank lines are skipped |
| BackupCsv.ParseLines | Shortcut_RegistVendor/popup.js:294-336 | fewer than two lines is its own error; missing columns are reported exactly as missing; a success had every required column |
| BackupCsv.ReadRow | Shortcut_RegistVendor/popup.js:341-366 | a data line gives at least one value; as written each is trimmed and free of double quotes, and with the corrected reader each is trimmed |
| BackupCsv.ParseCsv | Shortcut_RegistVendor/popup.js:294-373 | the file is refused for too few lines exactly when its trimmed text has no line feed; every value of an imported entry is trimmed and free of double quotes, or is the import time |
| BackupCsv.ParseCsvCorrected | Shortcut_RegistVendor/popup.js:294-373 | the same refusal; with the corrected reader every value of an imported entry is trimmed, or is the import time |
| BackupCsv.ConvertToCsv | Shortcut_RegistVendor/popup.js:376-397 | no entries give an empty text, and otherwise the text starts with the header line |
| BackupRoundTrip.RestoredAll | Shortcut_RegistVendor/popup.js:338-373 | an exported entry read back is its six columns, trimmed, with the time of import when it had no timestamp |
| BackupRoundTrip.RestoredEntry | Shortcut_RegistVendor/popup.js:361-370 | building an entry from the exported header and a trimmed exported row gives the restored entry |
| BackupRoundTrip.HeaderLine | Shortcut_RegistVendor/popup.js:301-302 | the exported header line reads back as its lower-cased column names |
| BackupRoundTrip.ExportedText | Shortcut_RegistVendor/popup.js:376-397 | the exported text splits back into its lines, each ending in a carriage return except the last |
| BackupRoundTrip.ExportImport | Shortcut_RegistVendor/popup.js:294-397 | exporting entries without line feeds and importing the file, with or without a byte-order mark, gives back each entry restored |
| BackupRoundTrip.ExportImportCorrected | Shortcut_RegistVendor/popup.js:294-417 | with the corrected reader, importing an export gives back each entry restored, with or without a byte-order mark |
| BackupRoundTrip.QuoteFreeRestoredAlike | Shortcut_RegistVendor/popup.js:338-366 | an entry without double quotes is restored alike by both readers |
| BackupRoundTrip.QuoteLostOnImport | Shortcut_RegistVendor/popup.js:338-417 | an exported value a"b comes back as ab as written and as a"b with the corrected reader |
| BackupRoundTrip.EmptyExportRejected | Shortcut_RegistVendor/popup.js:376-377 | an empty store exports nothing, and importing that is refused for too few lines |
| BackupRoundTrip.PlainEntrySurvives | Shortcut_RegistVendor/popup.js:338-397 | an entry with exactly the six columns, trimmed and stamped, comes back unchanged |
| BackupImport.FirstMissing | Shortcut_RegistVendor/popup.js:431-434 | the first required field that is empty, or none |
| BackupImport.CheckEntry | Shortcut_RegistVendor/popup.js:430-445 | an entry passes exactly when it is valid; otherwise the error carries the entry's number |
| BackupImport.MissingReportedFirst | Shortcut_RegistVendor/popup.js:431-434 | the first empty required field, in the listed order, is the one reported |
| BackupImport.NormalizedFields | Shortcut_RegistVendor/popup.js:447-456 | normalising trims the five text fields, stamps a missing timestamp and keeps every other field |
| BackupImport.KeysSurviveNormalizing | Shortcut_RegistVendor/popup.js:438-449 | for a valid entry normalising leaves the phone number and vendor id unchanged |
| BackupImport.ValidateFrom | Shortcut_RegistVendor/popup.js:430-457 | the entries pass exactly when all are valid, and are then each normalised |
| BackupImport.ValidateEntries | Shortcut_RegistVendor/popup.js:419-458 | an empty list is its own error; otherwise the entries pass exactly when all are valid, and come back normalised one for one |
| BackupImport.FirstInvalidReported | Shortcut_RegistVendor/popup.js:430-445 | the first invalid entry is the one reported, with its number |
| BackupImport.BlankNameAccepted | Shortcut_RegistVendor/popup.js:432-450 | a name of spaces passes validation and is stored empty |
| BackupImport.NormalizedIsFixed | Shortcut_RegistVendor/popup.js:447-456 | normalising a normalised entry changes nothing, and it stays valid |
| BackupImport.ValidateIdempotent | Shortcut_RegistVendor/popup.js:419-458 | validating validated entries again gives the same entries |
| BackupImport.NewEntries | Shortcut_RegistVendor/popup.js:174-179 | the new entries are exactly the uploaded ones whose phone number and vendor id pair is not stored |
| BackupImport.Merge | Shortcut_RegistVendor/popup.js:174-182 | the stored list keeps its entries in front and gains exactly the new ones |
| BackupImport.MergeStoresAll | Shortcut_RegistVendor/popup.js:174-182 | after merging, every uploaded entry's key is stored |
| BackupImport.ReuploadAddsNothing | Shortcut_RegistVendor/popup.js:174-182 | merging the same entries again adds nothing |
| BackupImport.NothingStoredKeepsAll | Shortcut_RegistVendor/popup.js:174-179 | uploaded entries whose keys are all new are all added |
| BackupImport.DuplicatesInOneUploadKept | Shortcut_RegistVendor/popup.js:174-182 | two uploaded entries with the same key are both added, as only the stored list is checked |
| BackupUpload.Accept | Shortcut_RegistVendor/popup.js:162-187 | the entries are accepted exactly when there is at least one and all are valid; the stored list is then the merge of the stored entries with the validated ones, so it keeps its entries in front and gains exactly the validated entries whose key was not stored; the count is the number added |
| BackupUpload.Upload | Shortcut_RegistVendor/popup.js:140-187 | a file the reader refuses is reported as unreadable; otherwise its entries are accepted or refused as above, and a successful upload stores the merge of the stored entries with the file's validated entries |
| BackupUpload.AcceptTwiceAddsNothing | Shortcut_RegistVendor/popup.js:162-187 | accepting the same entries twice adds nothing the second time |
| BackupUpload.UploadTwiceAddsNothing | Shortcut_RegistVendor/popup.js:140-187 | uploading the same file twice adds nothing the second time |
| BackupUpload.RestoredKeepsKey | Shortcut_RegistVendor/popup.js:338-456 | a stored entry read back from a backup keeps its key and stays valid |
| BackupUpload.RestoreIntoSameStore | Shortcut_RegistVendor/popup.js:140-397 | restoring a backup into the store it came from adds nothing, with or without a byte-order mark |
| BackupUpload.QuotedNameRefused | Shortcut_RegistVendor/popup.js:140-187 | a backup whose only vendor name is made of quotes is refused on upload: the name reads back empty and the entry fails validation |
| Tax.Rate.Value | Shortcut_InputNumberDetail/content.js:646-647 | the standard rate is exactly 1/10 and the reduced one 2/25, both strictly between 0 and 1/2 |
| Tax.Ceil | Shortcut_InputNumberDetail/content.js:697 | the rounded-up value is the least integer not below the number |
| Tax.FloorQuotient | Shortcut_InputNumberDetail/content.js:682-700 | rounding down a quotient of integers agrees with integer division, so the real-valued formulas can be read in whole yen |
| Tax.CeilQuotient | Shortcut_InputNumberDetail/content.js:697 | rounding up a quotient of integers is the negated integer division of the negated numerator |
| Tax.CalculateTax | Shortcut_InputNumberDetail/content.js:682-700 | after the amount is truncated to whole yen, each of the four taxes equals an exact integer formula: a − a·d div (d+n) for the Agency method, a·n div (d+n) directly, and a·n/d rounded down or up for the two exclusive lines |
| Tax.NtaQuotient | Shortcut_InputNumberDetail/content.js:689-692 | the tax-excluded part of an inclusive amount, a/(1 + rate) rounded down, is a·d div (d+n) |
| Tax.DirectQuotient | Shortcut_InputNumberDetail/content.js:685-688 | the direct inclusive tax a·rate/(1 + rate) rounded down is a·n div (d+n) |
| Tax.ExclusiveIsFloor | Shortcut_InputNumberDetail/content.js:694-700 | the integer forms of the two exclusive taxes equal the real-valued floor and ceiling they model |
| Tax.ExclusiveBounds | Shortcut_InputNumberDetail/content.js:694-700 | the slip-adjusted tax is the plain exclusive tax or one yen more, and equal exactly when the amount is a multiple of 10 (standard) or 25 (reduced) |
| Tax.DiscrepancyNote | Shortcut_InputNumberDetail/content.js:845-856 | the discrepancy note is shown exactly when the two exclusive taxes differ |
| Tax.DiscrepancyIsOneYen | Shortcut_InputNumberDetail/content.js:845-851 | the note appears exactly for amounts that are not a multiple of the rate's denominator, and the difference it reports is always 1 yen |
| Tax.InclusiveMethods | Shortcut_InputNumberDetail/content.js:684-693 | the Agency tax is the direct tax or one yen more, and equal exactly when a·d is divisible by d+n |
| Tax.NtaStep | Shortcut_InputNumberDetail/content.js:689-692 | one yen more amount raises the Agency tax by zero or one yen |
| Tax.NtaMonotone | Shortcut_InputNumberDetail/content.js:689-692 | the Agency tax never decreases as the amount grows, which the bisection relies on |
| Tax.CheckMatching | Shortcut_InputNumberDetail/content.js:950-971 | a line is marked an exact match iff the typed tax is non-empty and equal to it, and a partial match iff non-empty, different, and one contains the other |
| Tax.TypingPrefixMarksPartial | Shortcut_InputNumberDetail/content.js:956-961 | while a tax is being typed, its proper non-empty prefix marks the line as a partial match |
| Tax.Round | Shortcut_InputNumberDetail/content.js:981 | the rounded value lies within half a unit of the number |
| Tax.SuggestExclusive | Shortcut_InputNumberDetail/content.js:875 | the suggested amount ⌈tax/rate⌉ gives back the typed tax under the plain exclusive method, and every smaller amount gives less |
| Tax.CeilingSuggestion | Shortcut_InputNumberDetail/content.js:875 | ⌈tax/rate⌉ is the least amount whose truncated exclusive tax is the typed tax |
| Tax.ReverseDirect | Shortcut_InputNumberDetail/content.js:976-982 | zero for a non-positive tax; otherwise the rounded inverse, whose direct inclusive tax is the typed tax |
| Tax.RoundedDirectSuggestion | Shortcut_InputNumberDetail/content.js:977-981 | rounding tax·(1 + rate)/rate to the nearest yen gives an amount whose direct inclusive tax is the typed tax |
| Tax.Scan | Shortcut_InputNumberDetail/content.js:935-943 | the search returns the first amount of the range whose rounded tax is the typed one, and none only when no amount of the range has it |
| Tax.ReverseAdjustedAsWritten | Shortcut_InputNumberDetail/content.js:931-947 | as written: zero for a non-positive tax; otherwise the plain exclusive suggestion ⌈tax/rate⌉, whose truncated tax is the typed one |
| Tax.DownSearchStopsAtCeiling | Shortcut_InputNumberDetail/content.js:935-943 | as written, the search for the slip-adjusted line always stops at ⌈tax/rate⌉ and never reaches the fallback |
| Tax.ReverseAdjustedAsWrittenMisses | Shortcut_InputNumberDetail/content.js:931-947 | as written, a tax of 1 yen at 8 % suggests 13 yen, whose slip-adjusted tax is 2 yen |
| Tax.QuotientInIntegers | Shortcut_InputNumberDetail/content.js:935 | the search's lower bound ⌊tax/rate⌋ is tax·d div n in integers |
| Tax.ReverseAdjusted | Shortcut_InputNumberDetail/content.js:931-947 | the search testing the rounded-up tax: zero for a non-positive tax, otherwise an amount whose slip-adjusted tax is the typed tax |
| Tax.UpSearchSucceeds | Shortcut_InputNumberDetail/content.js:935-943 | the search testing the rounded-up tax succeeds at its first candidate ⌊tax/rate⌋ − 1, so it never reaches the fallback |
| Tax.Bisect | Shortcut_InputNumberDetail/content.js:992-1008 | each bisection step keeps a bracket whose Agency taxes straddle the typed tax; an exact answer has that tax, and running out of steps returns the floor midpoint of a straddling bracket |
| Tax.OpeningBracket | Shortcut_InputNumberDetail/content.js:989-990 | the opening bracket [0, 20·tax] straddles every positive tax |
| Tax.ReverseNta | Shortcut_InputNumberDetail/content.js:974-1011 | zero for a non-positive tax; otherwise either an amount in [0, 20·tax] with exactly the typed Agency tax, or the floor midpoint of a bracket that still contains such an amount |
| Tax.StraddleHasTarget | Shortcut_InputNumberDetail/content.js:992-1008 | whenever a bracket straddles the tax, some amount strictly inside it has exactly that Agency tax, so the search never gives up on a tax that cannot be met |
| Tax.FirstReaching | Shortcut_InputNumberDetail/content.js:992-1008 | inside a straddling bracket there is an amount with exactly the target Agency tax, found by walking up in one-yen steps |
| KeyShortcuts.NormalizeKey | Shortcut_InputNumberDetail/content.js:156-168 | a missing key normalises to the empty string, the special keys and F1–F12 are kept as they are, every other key is lower-cased letter by letter with its length kept |
| KeyShortcuts.KeptKeysHaveUpper | Shortcut_InputNumberDetail/content.js:161-162 | every kept key name holds an upper-case letter, so no lower-cased name can be mistaken for one |
| KeyShortcuts.NormalizeKeyIdempotent | Shortcut_InputNumberDetail/content.js:156-168 | normalising a normalised key changes nothing |
| KeyShortcuts.ShiftedLetterNormalizes | Shortcut_InputNumberDetail/content.js:167 | a shifted letter key acts as its lower-case letter |
| KeyShortcuts.IsDoublePress | Shortcut_InputNumberDetail/content.js:180-188 | a press is double iff it comes less than 200 ms after the key's last press (time 0 when never pressed); the key's press time becomes now and no other key's changes |
| KeyShortcuts.KeyDown | Shortcut_InputNumberDetail/content.js:105-140 | with Ctrl or Alt nothing happens; q and w suppress the default and either cancel their pending press (double) or start one (single); other keys leave the state alone and suppress the default exactly when mapped |
| KeyShortcuts.KeyUp | Shortcut_InputNumberDetail/content.js:142-154 | releasing a key with a pending press cancels the wait and runs its single-press action at once; any other release does nothing |
| KeyShortcuts.TimerFires | Shortcut_InputNumberDetail/content.js:120-129 | the timer of a pending press runs its single-press action and clears it; a cancelled timer does nothing |
| KeyShortcuts.EventsKeepPendingKeys | Shortcut_InputNumberDetail/content.js:105-154 | key presses, releases and timers keep the pending presses among q and w |
| KeyShortcuts.ModifiedKeysIgnored | Shortcut_InputNumberDetail/content.js:108 | with Ctrl or Alt held the state is unchanged, nothing runs and the browser's default is kept |
| KeyShortcuts.DoublePressRemaps | Shortcut_InputNumberDetail/content.js:110-130 | a second q or w within 200 ms replays r or d and cancels the pending single press; a later one starts a new wait instead |
| KeyShortcuts.QAndWAreNormal | Shortcut_InputNumberDetail/content.js:40-45 | q and w are their own normalised names |
| KeyShortcuts.ReplayedKeyRunsItsAction | Shortcut_InputNumberDetail/content.js:29-45 | the replayed r and d are mapped, non-double keys that run their own action at once, and releasing one afterwards, while only double-press keys wait, does nothing |
| KeyShortcuts.TapReleaseTapRunsBoth | Shortcut_InputNumberDetail/content.js:105-154 | tapping q, releasing it and tapping again within 200 ms runs q's own action on the release and then replays r, so both happen |
| MemoMatch.ContainsTransitive | Shortcut_InputNumberDetail/content.js:475 | a substring of a substring is a substring |
| MemoMatch.FilterSuggestions | Shortcut_InputNumberDetail/content.js:472-476 | with nothing typed every suggestion is listed; otherwise exactly the suggestions containing the typed text, ignoring case |
| MemoMatch.FilterKeepsOrder | Shortcut_InputNumberDetail/content.js:472-476 | the listed suggestions keep their stored order: filtering two runs of suggestions in turn is filtering them joined |
| MemoMatch.WholeSuggestionKept | Shortcut_InputNumberDetail/content.js:472-476 | typing a suggestion in full keeps it listed |
| MemoMatch.TypingNarrows | Shortcut_InputNumberDetail/content.js:472-476 | typing more never brings a suggestion back into the list |
| MemoMatch.FindMatches | Shortcut_InputNumberDetail/content.js:1611-1623 | empty memo text matches nothing; otherwise exactly the keywords the text contains |
| MemoMatch.MatchesKeepOrder | Shortcut_InputNumberDetail/content.js:1611-1623 | the matched keywords keep the keyword list's order |
| MemoMatch.LongerKeywordMatchesShorter | Shortcut_InputNumberDetail/content.js:1611-1623 | a memo containing a keyword also matches every keyword inside it |
| MemoMatch.DifferenceKeywordsOverlap | Shortcut_InputNumberDetail/content.js:1410-1418 | 差額あり and 差額 are both keywords and the first contains the second, so one always explains both |
| MemoMatch.MemoExplanation | Shortcut_InputNumberDetail/content.js:1561-1608 | the bubble is hidden iff the trimmed memo is empty; otherwise it lists exactly the keywords the trimmed memo contains, or says none are registered when it contains none |
| AutoNav.StartProcess | Shortcut_RegistVendor/background.js:119-135 | while running and below 5 iterations the counter goes up by one and the tab is sent to the verification page; otherwise nothing changes |
| AutoNav.StartRepeatedlyStopsAtLimit | Shortcut_RegistVendor/background.js:119-135 | calling it k times while running leaves the counter at min(count + k, 5) |
| AutoNav.HandleMessage | Shortcut_RegistVendor/background.js:20-49 | start resets the counter, runs and navigates; stop clears the running flag and keeps the counter; getState reports the flag; any other message leaves the state alone |
| AutoNav.OnUpdated | Shortcut_RegistVendor/background.js:138-151 | nothing unless running with a URL and loading complete; the verification page runs the button click, a page containing the registration URL runs the check, and no page navigates |
| AutoNav.CountStaysAtMostOne | Shortcut_RegistVendor/background.js:20-135 | whatever the events, the counter stays at most 1, below the limit of 5 |
| AutoNav.StoppedStaysIdle | Shortcut_RegistVendor/background.js:36-151 | after a stop message and until the next start, no page load runs a script |
| AutoNav.CheckElementB | Shortcut_RegistVendor/background.js:183-241 | the check retries until both the checkbox and label exist, asks to stop exactly when the box is checked and the label hidden, never presses Escape in mode 2, and presses it when the mode cannot be read |
| AutoNav.CheckAgreesWithContentScript | Shortcut_RegistVendor/background.js:199-238 | on a ready, unfinished page the worker presses Escape exactly when the content script's own Escape rule does |
| AutoNav.ModeOneEscape | Shortcut_RegistVendor/background.js:209-230 | in mode 1 the page is left alone iff the phone number is non-blank and the vendor table has candidates |
| AutoNav.AppendEntry | Shortcut_RegistVendor/background.js:257-264 | the stored list, empty when none is stored, comes back with the new entry appended and nothing else changed |
| AutoNav.AppendKeepsArrivalOrder | Shortcut_RegistVendor/background.js:257-264 | two entries appended in turn are stored in arrival order |

## Left out

- DOM and UI work is not modelled. This covers notifications, dropdown building and positioning, dragging, injected styles, preview panes, MutationObservers and event wiring. Only the decisions these parts act on are modelled.
- Chrome and network I/O is not modelled: `chrome.runtime`/`tabs`/`storage`/`scripting` and the `fetch` to the vision API. The vision answer, the stored values and the tab URL are parameters.
- Foreign primitives are left out. The SHA-256 digest of `cacheKeySimple` is replaced by its input sample. FileReader, Blob, OffscreenCanvas, `createImageBitmap` and JPEG encoding are uninterpreted: an encoder outcome per tier is a parameter.
- Real timers are not modelled. Every `setTimeout`, `requestAnimationFrame` and `Date.now` becomes an explicit time or a step of a state machine. The 10-second lock auto-release is a time comparison, not a timer.
- IEEE double arithmetic is not modelled. The tax, the image scaling and the coordinate conversion use exact `real`/`int` arithmetic. A double can land just below an exact multiple, as `110/1.1` does. The model therefore gives the intended integer results, and the code can differ from them by one yen or one pixel at such points.
- The arbitrary-angle branch of `convertRegionToOriginalImageCoordinates` is left out, because it needs cos/sin (OCR_RegistVendor/streamed-dock-integration.js:2864-2883). `applyUnsharpMask` and `enhanceTextVisibility` are left out for the same reason.
- Geometry.TransformInfo: requires a positive display size. With a zero size, JavaScript divides to Infinity, which has no `real` counterpart.
- ImageBudget.ApplyContrast: the guard that applies the contrast only to images below 300000 pixels (OCR_RegistVendor/background.js:1259) is outside the per-channel function.
- `String.prototype.normalize('NFC')` is taken as the identity. The input is assumed to be NFC already.
- `toLowerCase` is modelled for ASCII letters only. Date parsing is not modelled: timestamps are numbers, with 0 standing for a missing one. `toLocaleString` formatting is not modelled either.
- OCR_RegistVendor/content.js is not part of this model. Its lock and image check duplicate OCR_RegistVendor/streamed-dock-integration.js, and its wrapper function is never invoked. OCR_RegistVendor/popup.js, OCR_RegistVendor/config.js, Shortcut_InputNumberDetail/popup.js and Shortcut_InputNumberDetail/background.js are settings UIs and are not part of this model.
- The JSON import path of the popup is not modelled, only the CSV path. A line feed inside a quoted CSV value is not modelled: the reader splits lines first, so such a file does not read back. The round-trip lemmas require values without line feeds.
- BackupUpload.RestoreIntoSameStore: requires every vendor name to read back unchanged through the reader as written. A name with a `"` in it loses its quotes on import, as the CSV row of the Findings table shows, and `BackupUpload.QuotedNameRefused` states what then happens to a name made only of quotes.
- BackupImport.NormalizedIsFixed: requires a present name and a non-empty upload time. `validateEntries` checks fields before trimming them, so a whitespace-only name passes and is stored as "". That case is stated separately by `BackupImport.BlankNameAccepted`.
- BackupImport.ValidateIdempotent: requires present names and a non-empty upload time, for the same reason.
- The `showImage` and `downloadVendorData` messages of the registration worker are not modelled. `clickButtonA` is not modelled either; it only clicks a link.
- AutoNav.CheckElementB: models one attempt of the check. The retry on the next animation frame is the `Retry` outcome, and the repeated attempts are not modelled.
- The reverse-suggestion highlighting of the tax tooltip is not modelled (Shortcut_InputNumberDetail/content.js:880-900). It marks a suggestion when either digit string contains the other, the same containment `Tax.CheckMatching` states. Its suggestions are `Tax.SuggestExclusive`, `Tax.ReverseDirect`, `Tax.ReverseNta` and `Tax.ReverseAdjustedAsWritten`.
- Tax.ReverseNta: the bisection may end its 20 steps without an exact amount. The model then returns the floor midpoint the code returns, together with the bracket it lies in, which is proved to still contain an exact amount. It does not state how close the midpoint's tax is to the typed tax.
- The actions that shortcuts trigger (`performAction`, `simulateKeyPress`, `handleFunctionKey`) are modelled as names. Their DOM effect is not modelled.

## Findings

| source | as written | input that shows it | evidently intended | confidence | as-written member | corrected member |
|---|---|---|---|---|---|---|
| OCR_RegistVendor/background.js:759-764 | the katakana→hiragana conversion shifts the whole range U+30A1–U+30FA down by 0x60 | ヷ (U+30F7) becomes U+3097, which is not a hiragana letter | convert only U+30A1–U+30F6, the letters that have a hiragana form | high; not executed | OcrText.ToHiraganaAsWrittenLeaksUnassigned | OcrText.ToHiragana |
| OCR_RegistVendor/background.js:938-939 | the white space after `会社名:` and after `電話番号:` is matched with `[\s　]*`, which also crosses a line break | a blank company line followed by `電話番号: 03…` gives the whole telephone line as the company name | stop at the end of the label's own line, so a blank company gives an empty value | high; not executed | MultiField.BlankCompanyCapturesPhoneLine | MultiField.AnswerRoundTrip |
| OCR_RegistVendor/background.js:1027-1032 | `limitCacheSize` re-reads the shrinking `size` in its loop bound | a cache of 34 entries with limit 30 keeps 32; the function is never called in background.js, so the defect has no effect at run time | evict down to the limit | high; not executed | ResultCache.LimitCacheSizeAsWritten | ResultCache.LimitCacheSize |
| OCR_RegistVendor/streamed-dock-integration.js:2892-2895 | x, y, width and height are each rounded after the clamp | x = 10.5, width = 89.5 in an image 100 wide rounds to x = 11, width = 90, one pixel past the edge | a rounded rectangle that stays inside the image | high; not executed | Geometry.RoundingBreaksClamp | Geometry.RoundInside |
| OCR_RegistVendor/streamed-dock-integration.js:4009-4015 | the cleaning `[^\d…]` runs before the full-width→half-width step, and JavaScript `\d` is ASCII only | `０３１２３４５６７８` is removed entirely and never offered | convert full-width digits first, then clean | high; not executed | Candidates.FullWidthNumberLostAsWritten | Candidates.FullWidthNumberAccepted |
| Shortcut_RegistVendor/popup.js:341-364 | the CSV row reader toggles on every `"` and drops it, so the doubled quote written by `escapeCSVField` is never undone | a vendor name `a"b` is exported as `"a""b"` and read back as `ab` | read `""` inside a quoted field as one `"`, as section 2 of RFC 4180 does; such a reader already removes the enclosing quotes, so the corrected reader leaves out the per-value quote-stripping `replace` of line 364, which as written never finds a quote left to strip | high; not executed | BackupRoundTrip.QuoteLostOnImport | BackupRoundTrip.ExportImportCorrected |
| Shortcut_InputNumberDetail/content.js:935-943 | the reverse search for the slip-adjusted line tests the rounded-DOWN tax | a tax of 1 yen at 8 % suggests 13 yen, whose slip-adjusted tax is 2 yen | test the rounded-up tax that the line shows | high; not executed | Tax.ReverseAdjustedAsWrittenMisses | Tax.ReverseAdjusted |
