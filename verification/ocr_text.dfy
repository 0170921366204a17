/** `postProcessOcrResult` and `removeNgWords` of the OCR background script: the
    character stages every OCR result passes through, and the per-field clean-up
    (legal-form removal for payee names, grouping for telephone numbers, kana
    conversion for readings). */
module OcrText {
  import opened Wrappers
  import opened JsString
  import opened PhoneFormat

  /** The `fieldType` values `postProcessOcrResult` distinguishes; any other value
      gets the character stages only. */
  datatype FieldType = PayeeName | PhoneNumber | Phonetic | Clipboard | OtherField

  // ---------------------------------------------------------------- character stages

  /** Full-width Latin letters and digits, U+FF21–FF3A, U+FF41–FF5A and U+FF10–FF19. */
  predicate IsFullWidthAlnum(c: char) {
    ('Ａ' <= c <= 'Ｚ') || ('ａ' <= c <= 'ｚ') || ('０' <= c <= '９')
  }

  /** A full-width letter or digit moves to its ASCII counterpart 0xFEE0 below. */
  function FoldWidthChar(c: char): char {
    if IsFullWidthAlnum(c) then (c as int - 0xFEE0) as char else c
  }

  /** The full-width middle dot becomes the half-width one and the full-width full stop a period. */
  function PunctChar(c: char): char {
    if c == '・' then '･' else if c == '．' then '.' else c
  }

  /** A global one-character regular-expression replacement. */
  function MapChars(s: string, f: char -> char): (r: string)
    ensures |r| == |s| && forall i :: 0 <= i < |s| ==> r[i] == f(s[i])
  {
    seq(|s|, i requires 0 <= i < |s| => f(s[i]))
  }

  lemma {:induction false} MapCharsConcat(a: string, b: string, f: char -> char)
    ensures MapChars(a + b, f) == MapChars(a, f) + MapChars(b, f)
  {
  }

  /** `halfToFullKatakanaMap`: half-width katakana (and the two voicing marks) to full
      width, looked up row by row: the rows that take a voicing mark, then the rest. */
  function KanaMap(c: char): Option<char> {
    if 'ｶ' <= c <= 'ﾄ' then Some(KaSaTaRow(c))
    else if 'ﾊ' <= c <= 'ﾎ' then Some(HaRow(c))
    else OtherKana(c)
  }

  /** The ka, sa and ta rows of the table. */
  function KaSaTaRow(c: char): char
    requires 'ｶ' <= c <= 'ﾄ'
  {
    match c
    case 'ｶ' => 'カ' case 'ｷ' => 'キ' case 'ｸ' => 'ク' case 'ｹ' => 'ケ' case 'ｺ' => 'コ'
    case 'ｻ' => 'サ' case 'ｼ' => 'シ' case 'ｽ' => 'ス' case 'ｾ' => 'セ' case 'ｿ' => 'ソ'
    case 'ﾀ' => 'タ' case 'ﾁ' => 'チ' case 'ﾂ' => 'ツ' case 'ﾃ' => 'テ' case _ => 'ト'
  }

  /** The ha row of the table. */
  function HaRow(c: char): char
    requires 'ﾊ' <= c <= 'ﾎ'
  {
    match c
    case 'ﾊ' => 'ハ' case 'ﾋ' => 'ヒ' case 'ﾌ' => 'フ' case 'ﾍ' => 'ヘ' case _ => 'ホ'
  }

  /** The other entries of the table. */
  function OtherKana(c: char): Option<char> {
    match c
    case 'ｱ' => Some('ア') case 'ｲ' => Some('イ') case 'ｳ' => Some('ウ') case 'ｴ' => Some('エ') case 'ｵ' => Some('オ')
    case 'ﾅ' => Some('ナ') case 'ﾆ' => Some('ニ') case 'ﾇ' => Some('ヌ') case 'ﾈ' => Some('ネ') case 'ﾉ' => Some('ノ')
    case 'ﾏ' => Some('マ') case 'ﾐ' => Some('ミ') case 'ﾑ' => Some('ム') case 'ﾒ' => Some('メ') case 'ﾓ' => Some('モ')
    case 'ﾔ' => Some('ヤ') case 'ﾕ' => Some('ユ') case 'ﾖ' => Some('ヨ') case 'ﾗ' => Some('ラ') case 'ﾘ' => Some('リ')
    case 'ﾙ' => Some('ル') case 'ﾚ' => Some('レ') case 'ﾛ' => Some('ロ') case 'ﾜ' => Some('ワ') case 'ｦ' => Some('ヲ')
    case 'ﾝ' => Some('ン') case 'ｧ' => Some('ァ') case 'ｨ' => Some('ィ') case 'ｩ' => Some('ゥ') case 'ｪ' => Some('ェ')
    case 'ｫ' => Some('ォ') case 'ｯ' => Some('ッ') case 'ｬ' => Some('ャ') case 'ｭ' => Some('ュ') case 'ｮ' => Some('ョ')
    case 'ｰ' => Some('ー') case 'ﾞ' => Some('゛') case 'ﾟ' => Some('゜')
    case _ => None
  }

  /** The table maps the half-width block U+FF66–FF9F into the katakana block. */
  lemma {:induction false} KanaMapRange(c: char)
    ensures KanaMap(c).Some? ==> 'ｦ' <= c <= 'ﾟ' && '\U{3000}' <= KanaMap(c).value <= '\U{30FF}'
  {
  }

  /** The class of the last kana pass: every half-width kana of the table except the
      two stand-alone voicing marks. */
  predicate IsWidenable(c: char) {
    KanaMap(c).Some? && c != 'ﾞ' && c != 'ﾟ'
  }

  function WidenChar(c: char): (r: char)
    ensures !IsWidenable(r)
    ensures !('ｦ' <= c <= 'ﾟ') ==> r == c
  {
    KanaMapRange(c);
    if IsWidenable(c) then
      KanaMapRange(KanaMap(c).value);
      KanaMap(c).value
    else c
  }

  /** Bases of the half-width dakuten pass `[ｶ-ｺｻ-ｿﾀ-ﾄﾊ-ﾎ]ﾞ`. */
  predicate IsDakutenBase(c: char) {
    ('ｶ' <= c <= 'ﾄ') || ('ﾊ' <= c <= 'ﾎ')
  }

  /** Bases of the half-width handakuten pass `[ﾊ-ﾎ]ﾟ`. */
  predicate IsHandakutenBase(c: char) {
    'ﾊ' <= c <= 'ﾎ'
  }

  /** `dakutenMap`: full-width unvoiced kana to voiced kana. */
  function DakutenMap(c: char): Option<char> {
    match c
    case 'カ' => Some('ガ') case 'キ' => Some('ギ') case 'ク' => Some('グ') case 'ケ' => Some('ゲ') case 'コ' => Some('ゴ')
    case 'サ' => Some('ザ') case 'シ' => Some('ジ') case 'ス' => Some('ズ') case 'セ' => Some('ゼ') case 'ソ' => Some('ゾ')
    case 'タ' => Some('ダ') case 'チ' => Some('ヂ') case 'ツ' => Some('ヅ') case 'テ' => Some('デ') case 'ト' => Some('ド')
    case 'ハ' => Some('バ') case 'ヒ' => Some('ビ') case 'フ' => Some('ブ') case 'ヘ' => Some('ベ') case 'ホ' => Some('ボ')
    case _ => None
  }

  /** `handakutenMap`: full-width ha-row kana to semi-voiced kana. */
  function HandakutenMap(c: char): Option<char> {
    match c
    case 'ハ' => Some('パ') case 'ヒ' => Some('ピ') case 'フ' => Some('プ') case 'ヘ' => Some('ペ') case 'ホ' => Some('ポ')
    case _ => None
  }

  /** The full-width form of a base; every base of both passes is in the table. */
  function FullBase(b: char): char {
    KanaMap(b).GetOr(b)
  }

  /** `dakutenMap[base] || (base + '゛')`. */
  function DakutenReplacement(b: char): string {
    match DakutenMap(FullBase(b))
    case Some(v) => [v]
    case None => [FullBase(b), '゛']
  }

  /** `handakutenMap[base] || (base + '゜')`. */
  function HandakutenReplacement(b: char): string {
    match HandakutenMap(FullBase(b))
    case Some(v) => [v]
    case None => [FullBase(b), '゜']
  }

  /** Full-width katakana block, U+30A1–U+30FA, plus the prolonged sound mark. */
  predicate IsFullKatakana(c: char) {
    ('\U{30A1}' <= c <= '\U{30FA}') || c == 'ー'
  }

  /** Reference definition: the voiced kana is the code point right after the unvoiced one. */
  function VoicedKana(b: char): char
    requires IsDakutenBase(b)
  {
    (FullBase(b) as int + 1) as char
  }

  /** Reference definition: the semi-voiced kana is two code points after the unvoiced one. */
  function SemiVoicedKana(b: char): char
    requires IsHandakutenBase(b)
  {
    (FullBase(b) as int + 2) as char
  }

  /** The voicing tables agree with the Unicode layout of the katakana block, so the
      `|| base + mark` fallbacks never fire. */
  lemma {:induction false} VoicingTablesAgree(b: char)
    ensures IsDakutenBase(b) ==> DakutenReplacement(b) == [VoicedKana(b)] && IsFullKatakana(VoicedKana(b))
    ensures IsHandakutenBase(b) ==> HandakutenReplacement(b) == [SemiVoicedKana(b)] && IsFullKatakana(SemiVoicedKana(b))
  {
    if 'ｶ' <= b <= 'ｺ' {
      VoicedRow(b, 'ｶ', 'ｺ');
    } else if 'ｻ' <= b <= 'ｿ' {
      VoicedRow(b, 'ｻ', 'ｿ');
    } else if 'ﾀ' <= b <= 'ﾄ' {
      VoicedRow(b, 'ﾀ', 'ﾄ');
    } else if 'ﾊ' <= b <= 'ﾎ' {
      VoicedRow(b, 'ﾊ', 'ﾎ');
      SemiVoicedRow(b);
    }
  }

  /** One row of five voicing bases at a time, which keeps the case split small. */
  lemma {:induction false} VoicedRow(b: char, first: char, last: char)
    requires (first, last) in {('ｶ', 'ｺ'), ('ｻ', 'ｿ'), ('ﾀ', 'ﾄ'), ('ﾊ', 'ﾎ')}
    requires first <= b <= last
    ensures IsDakutenBase(b) && DakutenReplacement(b) == [VoicedKana(b)] && IsFullKatakana(VoicedKana(b))
  {
  }

  lemma {:induction false} SemiVoicedRow(b: char)
    requires IsHandakutenBase(b)
    ensures HandakutenReplacement(b) == [SemiVoicedKana(b)] && IsFullKatakana(SemiVoicedKana(b))
  {
  }

  /** `text.replace(/([<bases>])<mark>/g, …)`: a left-to-right scan that replaces each
      base followed by the mark with `replace(base)`. Both voicing passes are this scan. */
  function ReplacePairs(s: string, isBase: char -> bool, mark: char, replace: char -> string): string
    decreases |s|
  {
    if |s| == 0 then []
    else if |s| >= 2 && isBase(s[0]) && s[1] == mark then replace(s[0]) + ReplacePairs(s[2..], isBase, mark, replace)
    else [s[0]] + ReplacePairs(s[1..], isBase, mark, replace)
  }

  /** A scan whose replacements have at most two characters never lengthens the text. */
  lemma {:induction false} PairsShorten(s: string, isBase: char -> bool, mark: char, replace: char -> string)
    requires forall c :: isBase(c) ==> |replace(c)| <= 2
    ensures |ReplacePairs(s, isBase, mark, replace)| <= |s|
    decreases |s|
  {
    if |s| >= 2 && isBase(s[0]) && s[1] == mark {
      PairsShorten(s[2..], isBase, mark, replace);
    } else if |s| > 0 {
      PairsShorten(s[1..], isBase, mark, replace);
    }
  }

  /** `text.replace(/([ｶ-ｺｻ-ｿﾀ-ﾄﾊ-ﾎ])ﾞ/g, …)`: a base and a following ﾞ fuse into one
      voiced kana. */
  function Dakuten(s: string): (r: string)
    ensures |r| <= |s|
  {
    PairsShorten(s, IsDakutenBase, 'ﾞ', DakutenReplacement);
    ReplacePairs(s, IsDakutenBase, 'ﾞ', DakutenReplacement)
  }

  /** `text.replace(/([ﾊﾋﾌﾍﾎ])ﾟ/g, …)`. */
  function Handakuten(s: string): (r: string)
    ensures |r| <= |s|
  {
    PairsShorten(s, IsHandakutenBase, 'ﾟ', HandakutenReplacement);
    ReplacePairs(s, IsHandakutenBase, 'ﾟ', HandakutenReplacement)
  }

  /** What the character stages guarantee about every character they emit. */
  predicate Clean(c: char) {
    !IsFullWidthAlnum(c) && c != '・' && c != '．'
  }

  predicate AllClean(s: string) { forall i :: 0 <= i < |s| ==> Clean(s[i]) }

  lemma {:induction false} PairsClean(s: string, isBase: char -> bool, mark: char, replace: char -> string)
    requires AllClean(s)
    requires forall c :: isBase(c) ==> AllClean(replace(c))
    ensures AllClean(ReplacePairs(s, isBase, mark, replace))
    decreases |s|
  {
    if |s| >= 2 && isBase(s[0]) && s[1] == mark {
      PairsClean(s[2..], isBase, mark, replace);
    } else if |s| > 0 {
      PairsClean(s[1..], isBase, mark, replace);
    }
  }

  lemma {:induction false} DakutenClean(s: string)
    requires AllClean(s)
    ensures AllClean(Dakuten(s))
  {
    forall c | IsDakutenBase(c) ensures AllClean(DakutenReplacement(c)) {
      VoicingTablesAgree(c);
    }
    PairsClean(s, IsDakutenBase, 'ﾞ', DakutenReplacement);
  }

  lemma {:induction false} HandakutenClean(s: string)
    requires AllClean(s)
    ensures AllClean(Handakuten(s))
  {
    forall c | IsHandakutenBase(c) ensures AllClean(HandakutenReplacement(c)) {
      VoicingTablesAgree(c);
    }
    PairsClean(s, IsHandakutenBase, 'ﾟ', HandakutenReplacement);
  }

  /** The character passes of `postProcessOcrResult`: width folding, punctuation, the two voicing passes, then widening. */
  function CharStages(s: string): (r: string)
    ensures |r| <= |s|
    ensures forall i :: 0 <= i < |r| ==> Clean(r[i]) && !IsWidenable(r[i])
  {
    var folded := Fold(s);
    DakutenClean(folded);
    var h := Handakuten(Dakuten(folded));
    HandakutenClean(Dakuten(folded));
    WidenClean(h);
    MapChars(h, WidenChar)
  }

  lemma {:induction false} WidenClean(h: string)
    requires AllClean(h)
    ensures AllClean(MapChars(h, WidenChar))
  {
    forall i | 0 <= i < |h| ensures Clean(WidenChar(h[i])) {
      KanaMapRange(h[i]);
    }
  }

  /** The scan runs on the two halves of a text separately unless a base ends the
      first half and the mark starts the second. */
  lemma {:induction false} PairsConcat(x: string, y: string, isBase: char -> bool, mark: char, replace: char -> string)
    requires |x| == 0 || |y| == 0 || !(isBase(x[|x| - 1]) && y[0] == mark)
    ensures ReplacePairs(x + y, isBase, mark, replace)
      == ReplacePairs(x, isBase, mark, replace) + ReplacePairs(y, isBase, mark, replace)
    decreases |x|
  {
    if |x| == 0 {
      assert x + y == y;
    } else if |x| >= 2 && isBase(x[0]) && x[1] == mark {
      assert (x + y)[0] == x[0] && (x + y)[1] == x[1];
      assert (x + y)[2..] == x[2..] + y;
      PairsConcat(x[2..], y, isBase, mark, replace);
    } else {
      assert (x + y)[0] == x[0];
      assert !(|x + y| >= 2 && isBase((x + y)[0]) && (x + y)[1] == mark) by {
        if |x| == 1 && |y| > 0 {
          assert (x + y)[1] == y[0];
        } else if |x| >= 2 {
          assert (x + y)[1] == x[1];
        }
      }
      assert (x + y)[1..] == x[1..] + y;
      PairsConcat(x[1..], y, isBase, mark, replace);
    }
  }

  /** A base followed by the mark is replaced, and the text on either side is
      scanned as if the pair were not there. */
  lemma {:induction false} PairsAround(fa: string, b: char, fc: string, isBase: char -> bool, mark: char, replace: char -> string)
    requires isBase(b) && b != mark
    ensures ReplacePairs(fa + [b, mark] + fc, isBase, mark, replace)
      == ReplacePairs(fa, isBase, mark, replace) + replace(b) + ReplacePairs(fc, isBase, mark, replace)
  {
    assert ([b, mark] + fc)[2..] == fc;
    assert fa + [b, mark] + fc == fa + ([b, mark] + fc);
    PairsConcat(fa, [b, mark] + fc, isBase, mark, replace);
  }

  /** A character that is neither a base nor the mark passes the scan untouched, and
      the text on either side is scanned on its own. */
  lemma {:induction false} PairsAroundKept(fa: string, v: char, fc: string, isBase: char -> bool, mark: char, replace: char -> string)
    requires !isBase(v) && v != mark
    ensures ReplacePairs(fa + [v] + fc, isBase, mark, replace)
      == ReplacePairs(fa, isBase, mark, replace) + [v] + ReplacePairs(fc, isBase, mark, replace)
  {
    assert ([v] + fc)[1..] == fc;
    assert fa + [v] + fc == fa + ([v] + fc);
    PairsConcat(fa, [v] + fc, isBase, mark, replace);
  }

  /** A base followed by some other character that is not a base either is kept, both
      characters as they are. */
  lemma {:induction false} PairsSkip(fa: string, b: char, m: char, fc: string, isBase: char -> bool, mark: char, replace: char -> string)
    requires b != mark && m != mark && !isBase(m)
    ensures ReplacePairs(fa + [b, m] + fc, isBase, mark, replace)
      == ReplacePairs(fa, isBase, mark, replace) + [b, m] + ReplacePairs(fc, isBase, mark, replace)
  {
    assert ([b, m] + fc)[1..] == [m] + fc;
    assert ([m] + fc)[1..] == fc;
    assert fa + [b, m] + fc == fa + ([b, m] + fc);
    PairsConcat(fa, [b, m] + fc, isBase, mark, replace);
  }

  lemma {:induction false} PairsNoBase(s: string, isBase: char -> bool, mark: char, replace: char -> string)
    requires forall i :: 0 <= i < |s| ==> !isBase(s[i])
    ensures ReplacePairs(s, isBase, mark, replace) == s
    decreases |s|
  {
    if |s| > 0 {
      PairsNoBase(s[1..], isBase, mark, replace);
    }
  }

  /** The width and punctuation folding, which never touches half-width kana. */
  function Fold(s: string): (r: string)
    ensures |r| == |s| && AllClean(r)
  {
    MapChars(MapChars(s, FoldWidthChar), PunctChar)
  }

  lemma {:induction false} FoldConcat3(a: string, m: string, c: string)
    ensures Fold(a + m + c) == Fold(a) + Fold(m) + Fold(c)
  {
    MapCharsConcat(a + m, c, FoldWidthChar);
    MapCharsConcat(a, m, FoldWidthChar);
    var f := MapChars(a, FoldWidthChar);
    var g := MapChars(m, FoldWidthChar);
    var h := MapChars(c, FoldWidthChar);
    MapCharsConcat(f + g, h, PunctChar);
    MapCharsConcat(f, g, PunctChar);
  }

  /** The semi-voiced pass and the widening treat a kana `v` the voiced pass produced
      as a unit: the text before and after it is processed on its own. */
  lemma {:induction false} LaterStagesAround(da: string, v: char, dc: string)
    requires !IsHandakutenBase(v) && v != 'ﾟ' && !('ｦ' <= v <= 'ﾟ')
    ensures MapChars(Handakuten(da + [v] + dc), WidenChar)
      == MapChars(Handakuten(da), WidenChar) + [v] + MapChars(Handakuten(dc), WidenChar)
  {
    PairsAroundKept(da, v, dc, IsHandakutenBase, 'ﾟ', HandakutenReplacement);
    WidenAround(Handakuten(da), v, Handakuten(dc));
  }

  /** Widening leaves a character outside the half-width block in place. */
  lemma {:induction false} WidenAround(ha: string, v: char, hc: string)
    requires !('ｦ' <= v <= 'ﾟ')
    ensures MapChars(ha + [v] + hc, WidenChar) == MapChars(ha, WidenChar) + [v] + MapChars(hc, WidenChar)
  {
    MapCharsConcat(ha + [v], hc, WidenChar);
    MapCharsConcat(ha, [v], WidenChar);
  }

  /** A half-width base followed by ﾞ becomes the single voiced full-width kana, wherever
      it stands, and the text around it is processed as if the pair were not there. */
  lemma {:induction false} VoicedInContext(a: string, b: char, c: string)
    requires IsDakutenBase(b)
    ensures CharStages(a + [b, 'ﾞ'] + c) == CharStages(a) + [VoicedKana(b)] + CharStages(c)
  {
    VoicingTablesAgree(b);
    var v := VoicedKana(b);
    FoldConcat3(a, [b, 'ﾞ'], c);
    assert Fold([b, 'ﾞ']) == [b, 'ﾞ'];
    PairsAround(Fold(a), b, Fold(c), IsDakutenBase, 'ﾞ', DakutenReplacement);
    LaterStagesAround(Dakuten(Fold(a)), v, Dakuten(Fold(c)));
  }

  /** A half-width ha-row base followed by ﾟ becomes the single semi-voiced kana. */
  lemma {:induction false} SemiVoicedInContext(a: string, b: char, c: string)
    requires IsHandakutenBase(b)
    ensures CharStages(a + [b, 'ﾟ'] + c) == CharStages(a) + [SemiVoicedKana(b)] + CharStages(c)
  {
    VoicingTablesAgree(b);
    var v := SemiVoicedKana(b);
    FoldConcat3(a, [b, 'ﾟ'], c);
    assert Fold([b, 'ﾟ']) == [b, 'ﾟ'];
    PairsSkip(Fold(a), b, 'ﾟ', Fold(c), IsDakutenBase, 'ﾞ', DakutenReplacement);
    var da, dc := Dakuten(Fold(a)), Dakuten(Fold(c));
    PairsAround(da, b, dc, IsHandakutenBase, 'ﾟ', HandakutenReplacement);
    WidenAround(Handakuten(da), v, Handakuten(dc));
  }

  /** A stand-alone voicing mark is not widened. */
  lemma {:induction false} LoneMarksKept()
    ensures CharStages(['ﾞ']) == ['ﾞ']
    ensures CharStages(['ﾟ']) == ['ﾟ']
  {
    assert Fold(['ﾞ']) == ['ﾞ'];
    assert Fold(['ﾟ']) == ['ﾟ'];
  }

  /** Plain ASCII text passes the character stages unchanged. */
  lemma {:induction false} CharStagesFixAscii(s: string)
    requires forall i :: 0 <= i < |s| ==> s[i] as int < 0x80
    ensures CharStages(s) == s
  {
    assert Fold(s) == s;
    PairsNoBase(s, IsDakutenBase, 'ﾞ', DakutenReplacement);
    PairsNoBase(s, IsHandakutenBase, 'ﾟ', HandakutenReplacement);
    assert MapChars(s, WidenChar) == s;
  }

  // ---------------------------------------------------------------- legal-form tokens

  /** `ngWordsList`, in the order the alternation tries them. */
  const NgWords: seq<string> := [
    "株式会社", "有限会社", "合同会社", "合資会社", "合名会社",
    "医療法人", "医療法人社団", "医療法人財団", "社会医療法人",
    "宗教法人", "学校法人", "社会福祉法人", "更生保護法人", "相互会社",
    "特定非営利活動法人", "独立行政法人", "地方独立行政法人", "弁護士法人",
    "有限責任中間法人", "無限責任中間法人", "行政書士法人", "司法書士法人",
    "税理士法人", "国立大学法人", "公立大学法人", "農事組合法人", "管理組合法人",
    "社会保険労務士法人", "一般社団法人", "公益社団法人", "一般財団法人",
    "公益財団法人", "非営利法人", "(株)", "(有)", "支店"
  ]

  predicate NonEmptyWords(ws: seq<string>) { forall k :: 0 <= k < |ws| ==> |ws[k]| > 0 }

  lemma {:induction false} NgWordsNonEmpty()
    ensures NonEmptyWords(NgWords)
  {
  }

  /** The alternative the regular expression `w0|w1|…` picks at the start of `s`:
      the first listed word that is a prefix, not the longest one. */
  function FirstWordAt(s: string, ws: seq<string>): (r: Option<nat>)
    ensures r.Some? ==> r.value < |ws| && StartsWith(s, ws[r.value])
  {
    if |ws| == 0 then None
    else if StartsWith(s, ws[0]) then Some(0)
    else match FirstWordAt(s, ws[1..])
      case Some(k) => Some(k + 1)
      case None => None
  }

  /** The chosen alternative is the first listed one that matches, and there is none
      only when no listed word matches. */
  lemma {:induction false} FirstWordAtIsFirst(s: string, ws: seq<string>)
    ensures var r := FirstWordAt(s, ws);
      && (r.Some? ==> forall j :: 0 <= j < r.value ==> !StartsWith(s, ws[j]))
      && (r.None? <==> forall k :: 0 <= k < |ws| ==> !StartsWith(s, ws[k]))
  {
    if |ws| > 0 && !StartsWith(s, ws[0]) {
      FirstWordAtIsFirst(s, ws[1..]);
      assert forall k :: 1 <= k < |ws| ==> ws[1..][k - 1] == ws[k];
    }
  }

  /** `text.replace(ngWordsPattern, '')` for the global pattern built from `ws`. */
  function RemoveWords(s: string, ws: seq<string>): (r: string)
    requires NonEmptyWords(ws)
    ensures |r| <= |s|
    decreases |s|
  {
    if |s| == 0 then []
    else match FirstWordAt(s, ws)
      case Some(k) => RemoveWords(s[|ws[k]|..], ws)
      case None => [s[0]] + RemoveWords(s[1..], ws)
  }

  /** Which characters of `s` the replacement deletes. */
  function DropMask(s: string, ws: seq<string>): (m: seq<bool>)
    requires NonEmptyWords(ws)
    ensures |m| == |s|
    decreases |s|
  {
    if |s| == 0 then []
    else match FirstWordAt(s, ws)
      case Some(k) => seq(|ws[k]|, _ => true) + DropMask(s[|ws[k]|..], ws)
      case None => [false] + DropMask(s[1..], ws)
  }

  /** The characters of `s` whose mask entry is false, in order. */
  function Kept(s: string, m: seq<bool>): string
    requires |m| == |s|
  {
    if |s| == 0 then [] else (if m[0] then [] else [s[0]]) + Kept(s[1..], m[1..])
  }

  lemma {:induction false} KeptDropped(s: string, n: nat, m: seq<bool>)
    requires n <= |s| && |m| == |s| - n
    ensures Kept(s, seq(n, _ => true) + m) == Kept(s[n..], m)
    decreases n
  {
    if n == 0 {
      assert seq(n, _ => true) + m == m;
    } else {
      assert (seq(n, _ => true) + m)[0];
      assert (seq(n, _ => true) + m)[1..] == seq(n - 1, _ => true) + m;
      KeptDropped(s[1..], n - 1, m);
      assert s[1..][n - 1..] == s[n..];
    }
  }

  /** The replacement deletes exactly the masked characters. */
  lemma {:induction false} RemoveWordsIsKept(s: string, ws: seq<string>)
    requires NonEmptyWords(ws)
    ensures RemoveWords(s, ws) == Kept(s, DropMask(s, ws))
    decreases |s|
  {
    if |s| > 0 {
      match FirstWordAt(s, ws)
      case Some(k) =>
        RemoveWordsIsKept(s[|ws[k]|..], ws);
        KeptDropped(s, |ws[k]|, DropMask(s[|ws[k]|..], ws));
      case None =>
        RemoveWordsIsKept(s[1..], ws);
    }
  }

  /** Every occurrence of a listed word in the input loses at least its first
      character: no listed word survives starting at a kept character. */
  lemma {:induction false} OccurrenceStartDropped(s: string, ws: seq<string>, p: nat, k: nat)
    requires NonEmptyWords(ws) && k < |ws|
    requires p < |s| && StartsWith(s[p..], ws[k])
    ensures DropMask(s, ws)[p]
    decreases |s|
  {
    match FirstWordAt(s, ws)
    case Some(j) =>
      var n := |ws[j]|;
      if p >= n {
        assert s[n..][p - n..] == s[p..];
        OccurrenceStartDropped(s[n..], ws, p - n, k);
      }
    case None =>
      FirstWordAtIsFirst(s, ws);
      if p == 0 {
        assert false;
      }
      assert s[1..][p - 1..] == s[p..];
      OccurrenceStartDropped(s[1..], ws, p - 1, k);
  }

  /** Only listed words are deleted: each deleted character lies inside an occurrence
      of a listed word. */
  lemma {:induction false} DroppedInsideOccurrence(s: string, ws: seq<string>, p: nat)
    returns (q: nat, k: nat)
    requires NonEmptyWords(ws)
    requires p < |s| && DropMask(s, ws)[p]
    ensures q <= p && k < |ws| && p < q + |ws[k]| && StartsWith(s[q..], ws[k])
    decreases |s|
  {
    match FirstWordAt(s, ws)
    case Some(j) =>
      var n := |ws[j]|;
      if p < n {
        q, k := 0, j;
        assert s[0..] == s;
      } else {
        assert DropMask(s, ws) == seq(n, _ => true) + DropMask(s[n..], ws);
        assert DropMask(s[n..], ws)[p - n];
        var q', k' := DroppedInsideOccurrence(s[n..], ws, p - n);
        assert s[n..][q'..] == s[q' + n..];
        q, k := q' + n, k';
      }
    case None =>
      assert DropMask(s, ws) == [false] + DropMask(s[1..], ws);
      assert p > 0 && DropMask(s[1..], ws)[p - 1];
      var q', k' := DroppedInsideOccurrence(s[1..], ws, p - 1);
      assert s[1..][q'..] == s[q' + 1..];
      q, k := q' + 1, k';
  }

  /** A text in which no listed word occurs is left as it is. */
  lemma {:induction false} RemoveWordsNoOccurrence(s: string, ws: seq<string>)
    requires NonEmptyWords(ws)
    requires forall p, k :: 0 <= p < |s| && 0 <= k < |ws| ==> !StartsWith(s[p..], ws[k])
    ensures RemoveWords(s, ws) == s
    decreases |s|
  {
    if |s| > 0 {
      assert s[0..] == s;
      forall p, k | 0 <= p < |s| - 1 && 0 <= k < |ws| ensures !StartsWith(s[1..][p..], ws[k]) {
        assert s[1..][p..] == s[p + 1..];
      }
      RemoveWordsNoOccurrence(s[1..], ws);
    }
  }

  lemma {:induction false} RemoveWordsMatch(s: string, ws: seq<string>, k: nat)
    requires NonEmptyWords(ws) && |s| > 0 && FirstWordAt(s, ws) == Some(k)
    ensures RemoveWords(s, ws) == RemoveWords(s[|ws[k]|..], ws)
  {
  }

  lemma {:induction false} RemoveWordsNoMatch(s: string, ws: seq<string>)
    requires NonEmptyWords(ws) && |s| > 0 && FirstWordAt(s, ws) == None
    ensures RemoveWords(s, ws) == [s[0]] + RemoveWords(s[1..], ws)
  {
  }

  lemma {:induction false} FirstWordAtPrefix(s: string, ws: seq<string>, k: nat)
    requires k < |ws| && StartsWith(s, ws[k])
    requires forall j :: 0 <= j < k ==> !StartsWith(s, ws[j])
    ensures FirstWordAt(s, ws) == Some(k)
  {
    if k > 0 {
      FirstWordAtPrefix(s, ws[1..], k - 1);
    }
  }

  lemma {:induction false} NoWordAt(s: string)
    requires forall k :: 0 <= k < |NgWords| ==> !StartsWith(s, NgWords[k])
    ensures FirstWordAt(s, NgWords) == None
  {
    FirstWordAtIsFirst(s, NgWords);
  }

  /** A word of two or more characters that, if it starts with `a`, continues with `b`. */
  predicate PairHeaded(w: string, a: char, b: char) { |w| >= 2 && (w[0] == a ==> w[1] == b) }

  /** The first two characters of the listed words, as far as the examples below need them. */
  lemma {:induction false} NgWordHeads()
    ensures forall k :: 0 <= k < |NgWords| ==>
      && NgWords[k][0] !in "団式会"
      && PairHeaded(NgWords[k], '社', '会') && PairHeaded(NgWords[k], '株', '式')
  {
    forall k | 0 <= k < |NgWords|
      ensures NgWords[k][0] !in "団式会" && PairHeaded(NgWords[k], '社', '会') && PairHeaded(NgWords[k], '株', '式')
    {
      var w := NgWords[k];
      assert w in NgWords;
    }
  }

  /** A word that differs from `s` at position `i` is not a prefix of it. */
  lemma {:induction false} DiffersAt(s: string, w: string, i: nat)
    requires i < |w| && i < |s| && s[i] != w[i]
    ensures !StartsWith(s, w)
  {
    if |w| <= |s| {
      assert s[..|w|][i] == s[i];
    }
  }

  /** No listed word starts with `c`, so a text starting with it keeps its first character. */
  lemma {:induction false} NoWordStartsWith(c: char, t: string)
    requires c in "団式会"
    ensures RemoveWords([c] + t, NgWords) == [c] + RemoveWords(t, NgWords)
  {
    NgWordsNonEmpty();
    var s := [c] + t;
    forall k | 0 <= k < |NgWords| ensures !StartsWith(s, NgWords[k]) {
      DiffersAt(s, NgWords[k], 0);
    }
    NoWordAt(s);
    RemoveWordsNoMatch(s, NgWords);
    assert s[1..] == t;
  }

  /** A word that continues `a` with `b`, if it starts with `a` at all, is not a prefix of
      a text that continues `a` otherwise. */
  lemma {:induction false} PairMissesWord(s: string, w: string, a: char, b: char)
    requires |s| >= 2 && s[0] == a && s[1] != b
    requires |w| >= 2 && (w[0] == a ==> w[1] == b)
    ensures !StartsWith(s, w)
  {
    if w[0] == a {
      DiffersAt(s, w, 1);
    } else {
      DiffersAt(s, w, 0);
    }
  }

  /** When every listed word starting with `a` continues with `b`, a text that continues
      `a` otherwise keeps its `a`. */
  lemma {:induction false} PairKept(a: char, c: char, t: string, ws: seq<string>, b: char)
    requires NonEmptyWords(ws) && forall k :: 0 <= k < |ws| ==> PairHeaded(ws[k], a, b)
    requires c != b
    ensures RemoveWords([a, c] + t, ws) == [a] + RemoveWords([c] + t, ws)
  {
    var s := [a, c] + t;
    forall k | 0 <= k < |ws| ensures !StartsWith(s, ws[k]) {
      PairMissesWord(s, ws[k], a, b);
    }
    FirstWordAtIsFirst(s, ws);
    RemoveWordsNoMatch(s, ws);
    assert s[1..] == [c] + t;
  }

  /** The listed words starting with `社` continue with `会`. */
  lemma {:induction false} ShaNotFollowedByKai(c: char, t: string)
    requires c != '会'
    ensures RemoveWords(['社', c] + t, NgWords) == ['社'] + RemoveWords([c] + t, NgWords)
  {
    NgWordsNonEmpty();
    NgWordHeads();
    PairKept('社', c, t, NgWords, '会');
  }

  lemma {:induction false} MedicalCorporationMatches(t: string)
    ensures FirstWordAt("医療法人" + t, NgWords) == Some(5)
  {
    NgWordsNonEmpty();
    var s := "医療法人" + t;
    assert StartsWith(s, NgWords[5]) by {
      assert s[..4] == "医療法人";
    }
    forall j | 0 <= j < 5 ensures !StartsWith(s, NgWords[j]) {
      assert s[..|NgWords[j]|][0] != NgWords[j][0];
    }
    FirstWordAtPrefix(s, NgWords, 5);
  }

  lemma {:induction false} FourCharacterWords()
    ensures |NgWords[0]| == 4 && |NgWords[5]| == 4
  {
  }

  lemma {:induction false} MedicalCorporationFirst(t: string)
    ensures RemoveWords("医療法人" + t, NgWords) == RemoveWords(t, NgWords)
  {
    NgWordsNonEmpty();
    var s := "医療法人" + t;
    MedicalCorporationMatches(t);
    FourCharacterWords();
    RemoveWordsMatch(s, NgWords, 5);
    assert s[4..] == t;
  }

  lemma {:induction false} ShaDanKept(t: string)
    ensures RemoveWords(['社', '団'] + t, NgWords) == ['社', '団'] + RemoveWords(t, NgWords)
  {
    NgWordsNonEmpty();
    ShaNotFollowedByKai('団', t);
    NoWordStartsWith('団', t);
    ConsTwice('社', '団', RemoveWords(['団'] + t, NgWords), RemoveWords(t, NgWords));
  }

  lemma {:induction false} ConsTwice(a: char, b: char, x: string, y: string)
    requires x == [b] + y
    ensures [a] + x == [a, b] + y
  {
  }

  /** The order of the alternation matters: `医療法人` is listed before `医療法人社団`,
      so the longer form loses only its first four characters, whatever follows it. */
  lemma {:induction false} AlternationOrder(t: string)
    ensures RemoveWords("医療法人社団" + t, NgWords) == "社団" + RemoveWords(t, NgWords)
  {
    NgWordsNonEmpty();
    var rest := "社団" + t;
    assert "医療法人" + rest == "医療法人社団" + t;
    MedicalCorporationFirst(rest);
    ShaDanKept(t);
  }

  lemma {:induction false} KabuKabu(t: string)
    ensures RemoveWords(['株', '株'] + t, NgWords) == ['株'] + RemoveWords(['株'] + t, NgWords)
  {
    NgWordsNonEmpty();
    NgWordHeads();
    PairKept('株', '株', t, NgWords, '式');
  }

  lemma {:induction false} JointStockMatches(t: string)
    ensures FirstWordAt("株式会社" + t, NgWords) == Some(0)
  {
    NgWordsNonEmpty();
    var s := "株式会社" + t;
    assert StartsWith(s, NgWords[0]) by {
      assert s[..4] == "株式会社";
    }
  }

  lemma {:induction false} JointStockFirst(t: string)
    ensures RemoveWords("株式会社" + t, NgWords) == RemoveWords(t, NgWords)
  {
    NgWordsNonEmpty();
    var s := "株式会社" + t;
    JointStockMatches(t);
    FourCharacterWords();
    RemoveWordsMatch(s, NgWords, 0);
    assert s[4..] == t;
  }

  lemma {:induction false} LoneShaKept()
    ensures RemoveWords(['社'], NgWords) == ['社']
  {
    NgWordsNonEmpty();
    forall k | 0 <= k < |NgWords| ensures !StartsWith(['社'], NgWords[k]) {
    }
    NoWordAt(['社']);
    RemoveWordsNoMatch(['社'], NgWords);
  }

  lemma {:induction false} TailKept(u: string)
    requires u == "式会社"
    ensures RemoveWords(u, NgWords) == u
  {
    NgWordsNonEmpty();
    assert u == ['式'] + (['会'] + ['社']);
    NoWordStartsWith('式', ['会'] + ['社']);
    NoWordStartsWith('会', ['社']);
    LoneShaKept();
  }

  /** One pass only: a token whose halves surround another token is put back together. */
  lemma {:induction false} SinglePassExample(s: string)
    requires s == "株株式会社式会社"
    ensures RemoveWords(s, NgWords) == "株式会社"
  {
    NgWordsNonEmpty();
    var u := "式会社";
    SinglePassPieces(s, u);
    KabuKabu(u + u);
    JointStockFirst(u);
    TailKept(u);
  }

  /** How the example is cut up: a doubled `株`, then two copies of the token's tail. */
  lemma {:induction false} SinglePassPieces(s: string, u: string)
    requires s == "株株式会社式会社" && u == "式会社"
    ensures s == ['株', '株'] + (u + u)
    ensures ['株'] + (u + u) == "株式会社" + u
    ensures ['株'] + u == "株式会社"
  {
  }

  // ---------------------------------------------------------------- white space and labels

  /** No white space other than a single ASCII space between two other characters. */
  predicate SpaceNormal(s: string) {
    && (forall i :: 0 <= i < |s| && IsSpace(s[i]) ==> s[i] == ' ')
    && (forall i :: 0 <= i < |s| - 1 ==> !(IsSpace(s[i]) && IsSpace(s[i + 1])))
  }

  predicate IsNotSpace(c: char) { !IsSpace(c) }

  /** `s.replace(/\s+/g, ' ')`. */
  function CollapseSpaces(s: string): (r: string)
    ensures |r| <= |s|
    ensures SpaceNormal(r)
    ensures |s| > 0 ==> (|r| > 0 && (IsSpace(r[0]) <==> IsSpace(s[0]))
      && (IsSpace(r[|r| - 1]) <==> IsSpace(s[|s| - 1])))
    ensures forall c :: c in r ==> c == ' ' || c in s
    decreases |s|
  {
    if |s| == 0 then []
    else if IsSpace(s[0]) then
      var n := LeadingSpaces(s);
      assert n > 0;
      [' '] + CollapseSpaces(s[n..])
    else [s[0]] + CollapseSpaces(s[1..])
  }

  /** Collapsing keeps every other character, in order. */
  lemma {:induction false} CollapseKeepsText(s: string)
    ensures Filter(CollapseSpaces(s), IsNotSpace) == Filter(s, IsNotSpace)
    decreases |s|
  {
    if |s| > 0 {
      if IsSpace(s[0]) {
        CollapseKeepsText(s[LeadingSpaces(s)..]);
        CollapseSpaceStep(s);
      } else {
        CollapseKeepsText(s[1..]);
        CollapseTextStep(s);
      }
    }
  }

  /** A run of white space at the front, collapsed or not, contributes nothing. */
  lemma {:induction false} CollapseSpaceStep(s: string)
    requires |s| > 0 && IsSpace(s[0])
    ensures var rest := s[LeadingSpaces(s)..];
      && Filter(CollapseSpaces(s), IsNotSpace) == Filter(CollapseSpaces(rest), IsNotSpace)
      && Filter(s, IsNotSpace) == Filter(rest, IsNotSpace)
  {
    var n := LeadingSpaces(s);
    var c := CollapseSpaces(s[n..]);
    assert CollapseSpaces(s) == [' '] + c;
    FilterConcat([' '], c, IsNotSpace);
    FilterNoneKept([' '], IsNotSpace);
    assert s == s[..n] + s[n..];
    FilterConcat(s[..n], s[n..], IsNotSpace);
    FilterNoneKept(s[..n], IsNotSpace);
  }

  /** A character other than white space at the front is kept in both. */
  lemma {:induction false} CollapseTextStep(s: string)
    requires |s| > 0 && !IsSpace(s[0])
    ensures Filter(CollapseSpaces(s), IsNotSpace) == [s[0]] + Filter(CollapseSpaces(s[1..]), IsNotSpace)
    ensures Filter(s, IsNotSpace) == [s[0]] + Filter(s[1..], IsNotSpace)
  {
    var c := CollapseSpaces(s[1..]);
    assert CollapseSpaces(s) == [s[0]] + c;
    FilterConcat([s[0]], c, IsNotSpace);
    assert s == [s[0]] + s[1..];
    FilterConcat([s[0]], s[1..], IsNotSpace);
  }

  lemma {:induction false} FilterNoneKept(s: string, keep: char -> bool)
    requires forall i :: 0 <= i < |s| ==> !keep(s[i])
    ensures Filter(s, keep) == []
  {
    if |s| > 0 {
      FilterNoneKept(s[1..], keep);
    }
  }

  /** Collapsing a string that is already normal changes nothing; in particular
      collapsing is idempotent. */
  lemma {:induction false} CollapseFixesNormal(s: string)
    requires SpaceNormal(s)
    ensures CollapseSpaces(s) == s
    decreases |s|
  {
    if |s| > 0 {
      if IsSpace(s[0]) {
        assert |s| == 1 || !IsSpace(s[1]);
        assert LeadingSpaces(s) == 1;
      }
      CollapseFixesNormal(s[1..]);
    }
  }

  lemma {:induction false} TrimKeepsNormal(s: string)
    requires SpaceNormal(s)
    ensures SpaceNormal(Trim(s))
  {
    var i, j := TrimIsSlice(s);
    assert forall k :: 0 <= k < j - i ==> Trim(s)[k] == s[i + k];
  }

  /** `s.replace(/<tag>\s*$/, '')`: the tag is removed when only white space follows it. */
  function StripTrailingLabel(s: string, tag: string): (r: string)
    ensures r <= s
  {
    var t := s[..|s| - TrailingSpaces(s)];
    if EndsWith(t, tag) then t[..|t| - |tag|] else s
  }

  lemma {:induction false} TrailingSpacesAfter(x: string, ws: string)
    requires (|x| > 0 && !IsSpace(x[|x| - 1])) && AllSpace(ws)
    ensures TrailingSpaces(x + ws) == |ws|
    decreases |ws|
  {
    if |ws| > 0 {
      assert (x + ws)[..|x + ws| - 1] == x + ws[..|ws| - 1];
      TrailingSpacesAfter(x, ws[..|ws| - 1]);
    }
  }

  /** Characterisation of the tag stripping: a tag that ends in a non-space
      character and is followed only by white space is cut off together with it. */
  lemma {:induction false} StripLabelAppended(x: string, tag: string, ws: string)
    requires |tag| > 0 && !IsSpace(tag[|tag| - 1]) && AllSpace(ws)
    ensures StripTrailingLabel(x + tag + ws, tag) == x
  {
    var s := x + tag + ws;
    assert (x + tag)[|x + tag| - 1] == tag[|tag| - 1];
    TrailingSpacesAfter(x + tag, ws);
    assert s[..|s| - |ws|] == x + tag;
  }

  /** Text that does not end in the tag (after trailing white space) is kept. */
  lemma {:induction false} StripLabelAbsent(s: string, tag: string)
    requires !EndsWith(s[..|s| - TrailingSpaces(s)], tag)
    ensures StripTrailingLabel(s, tag) == s
  {
    var t := s[..|s| - TrailingSpaces(s)];
    assert !EndsWith(t, tag);
  }

  // ---------------------------------------------------------------- removeNgWords

  /** A cleaned item: not empty, trimmed, with single spaces only. */
  predicate TidyItem(x: string) { |x| > 0 && SpaceNormal(x) && Trim(x) == x }

  /** One piece trimmed and its space runs collapsed. */
  function CleanItem(p: string): (r: string)
    ensures |r| > 0 ==> TidyItem(r)
    ensures NoneOf(p, IsListSeparator) ==> NoneOf(r, IsComma)
  {
    CleanItemFacts(p);
    CollapseSpaces(Trim(p))
  }

  /** The pieces of a separator-bearing text, each cleaned, empty ones dropped. */
  function CleanItems(parts: seq<string>): (r: seq<string>)
    ensures forall k :: 0 <= k < |r| ==> TidyItem(r[k])
  {
    if |parts| == 0 then []
    else
      var item := CleanItem(parts[0]);
      var rest := CleanItems(parts[1..]);
      if |item| > 0 then [item] + rest else rest
  }

  /** Pieces cut at the separators hold no comma once cleaned, so the `,`-join can be
      cut back into them. */
  lemma {:induction false} CleanItemsNoComma(parts: seq<string>)
    requires forall k :: 0 <= k < |parts| ==> NoneOf(parts[k], IsListSeparator)
    ensures forall k :: 0 <= k < |CleanItems(parts)| ==> NoneOf(CleanItems(parts)[k], IsComma)
    decreases |parts|
  {
    if |parts| > 0 {
      CleanItemsNoComma(parts[1..]);
    }
  }

  lemma {:induction false} CleanItemFacts(p: string)
    ensures |CollapseSpaces(Trim(p))| > 0 ==> TidyItem(CollapseSpaces(Trim(p)))
    ensures NoneOf(p, IsListSeparator) ==> NoneOf(CollapseSpaces(Trim(p)), IsComma)
  {
    var t := Trim(p);
    TrimKeepsChars(p);
    var c := CollapseSpaces(t);
    if |c| > 0 {
      assert |t| > 0 && !IsSpace(t[0]) && !IsSpace(t[|t| - 1]);
      assert !IsSpace(c[0]) && !IsSpace(c[|c| - 1]);
    }
    if NoneOf(p, IsListSeparator) {
      forall k | 0 <= k < |c| ensures !IsComma(c[k]) {
        assert c[k] in c;
        assert c[k] == ' ' || c[k] in t;
      }
    }
  }

  /** The end of `removeNgWords`: the `,`-join of the cleaned items. */
  function JoinItems(p: string): (r: string)
    ensures var items := CleanItems(Split(p, IsListSeparator));
      |items| > 0 ==> Split(r, IsComma) == items
  {
    var parts := Split(p, IsListSeparator);
    var items := CleanItems(parts);
    if |items| > 0 then CleanItemsNoComma(parts); SplitJoin(items); Join(items, ",")
    else Join(items, ",")
  }

  /** `removeNgWords`: delete the legal-form tokens, tidy a list of names, trim, and drop a
      dangling `会社名:` tag or trailing colon. */
  function RemoveNgWords(text: string): (r: string)
    ensures var p := RemoveWords(text, NgWords);
      var listed := ',' in p || '、' in p;
      && (!listed ==> r <= Trim(p))
      && (listed ==> r <= Trim(JoinItems(p)))
    ensures var p := RemoveWords(text, NgWords);
      var q := if ',' in p || '、' in p then JoinItems(p) else p;
      !EndsWith(Trim(q), ":") ==> r == Trim(q)
  {
    NgWordsNonEmpty();
    var p := RemoveWords(text, NgWords);
    var q := if ',' in p || '、' in p then JoinItems(p) else p;
    CompanyLabelEndsInColon();
    NoColonNoLabel(q, "会社名:");
    StripTrailingLabel(StripTrailingLabel(Trim(q), "会社名:"), ":")
  }

  /** Trimmed text not ending in a colon loses neither a label ending in a colon
      nor the colon itself. */
  lemma {:induction false} NoColonNoLabel(q: string, tag: string)
    requires EndsWith(tag, ":")
    ensures var s := Trim(q);
      !EndsWith(s, ":") ==> StripTrailingLabel(StripTrailingLabel(s, tag), ":") == s
  {
    var s := Trim(q);
    if !EndsWith(s, ":") {
      assert TrailingSpaces(s) == 0;
      assert s[..|s| - 0] == s;
      EndsWithSuffix(s, tag, ":");
    }
  }

  /** The company label ends in a colon. */
  lemma {:induction false} CompanyLabelEndsInColon()
    ensures EndsWith("会社名:", ":")
  {
    assert "会社名:"[3..] == ":";
  }

  /** A text ending in `tag` ends in every suffix of `tag`. */
  lemma {:induction false} EndsWithSuffix(s: string, tag: string, end: string)
    requires EndsWith(tag, end)
    ensures EndsWith(s, tag) ==> EndsWith(s, end)
  {
    if EndsWith(s, tag) {
      assert s[|s| - |end|..] == s[|s| - |tag|..][|tag| - |end|..];
    }
  }

  /** A name holding no legal-form word, no list separator and no trailing colon
      comes back only trimmed. */
  lemma {:induction false} PlainNameKept(t: string)
    requires forall p, k :: 0 <= p < |t| && 0 <= k < |NgWords| ==> !StartsWith(t[p..], NgWords[k])
    requires ',' !in t && '、' !in t
    requires !EndsWith(Trim(t), ":")
    ensures RemoveNgWords(t) == Trim(t)
  {
    NgWordsNonEmpty();
    RemoveWordsNoOccurrence(t, NgWords);
  }

  // ---------------------------------------------------------------- postProcessOcrResult

  /** The characters `[\d\-+]` kept for telephone numbers. */
  predicate IsPhoneChar(c: char) { IsDigit(c) || c == '-' || c == '+' }

  predicate IsPhoneOutChar(c: char) { IsDigit(c) || c == '-' || c == ',' }

  function FormatPiece(p: string): string {
    FormatPhoneNumber(Filter(Trim(p), IsPhoneChar))
  }

  function FormatPieces(parts: seq<string>): (r: seq<string>)
    ensures |r| == |parts| && forall k :: 0 <= k < |parts| ==> r[k] == FormatPiece(parts[k])
  {
    seq(|parts|, k requires 0 <= k < |parts| => FormatPiece(parts[k]))
  }

  /** The telephone branch of `postProcessOcrResult`: every comma-separated
      candidate is reduced to its number characters and formatted; a single number
      is formatted as a whole. */
  function PhoneField(t: string): (r: string)
    ensures forall i :: 0 <= i < |r| ==> IsPhoneOutChar(r[i])
  {
    if ',' in t || '、' in t then
      var pieces := FormatPieces(Split(t, IsListSeparator));
      JoinChars(pieces, ",", IsPhoneOutChar);
      Join(pieces, ",")
    else FormatPhoneNumber(Filter(t, IsPhoneChar))
  }

  /** Katakana letters in the range the source converts, U+30A1–U+30FA. */
  predicate InPhoneticRange(c: char) { '\U{30A1}' <= c <= '\U{30FA}' }

  /** Katakana letters that have a hiragana counterpart, U+30A1–U+30F6. */
  predicate IsKatakanaLetter(c: char) { '\U{30A1}' <= c <= '\U{30F6}' }

  /** Hiragana letters, U+3041–U+3096. */
  predicate IsHiraganaLetter(c: char) { '\U{3041}' <= c <= '\U{3096}' }

  /** The reading conversion as the source writes it: the whole range U+30A1–U+30FA is
      moved 0x60 down, including four letters that have no hiragana form. */
  function ToHiraganaAsWritten(s: string): (r: string)
    ensures |r| == |s|
    ensures forall i :: 0 <= i < |s| ==>
      (InPhoneticRange(s[i]) ==> r[i] as int == s[i] as int - 0x60) && (!InPhoneticRange(s[i]) ==> r[i] == s[i])
    ensures NoneOf(r, InPhoneticRange)
  {
    MapChars(s, c => if InPhoneticRange(c) then (c as int - 0x60) as char else c)
  }

  /** The first of those four letters, ヷ (U+30F7), becomes U+3097, which is not a
      hiragana letter (it is not assigned at all). */
  lemma {:induction false} ToHiraganaAsWrittenLeaksUnassigned()
    ensures var r := ToHiraganaAsWritten(['\U{30F7}']);
      IsKatakanaLetter('\U{30F6}') && !IsHiraganaLetter(r[0]) && r[0] == '\U{3097}'
  {
  }

  /** The reading conversion restricted to letters that have a hiragana form. */
  function ToHiragana(s: string): (r: string)
    ensures |r| == |s|
    ensures forall i :: 0 <= i < |s| ==> (IsKatakanaLetter(s[i]) ==> IsHiraganaLetter(r[i]))
    ensures forall i :: 0 <= i < |s| ==> (!IsKatakanaLetter(s[i]) ==> r[i] == s[i])
  {
    MapChars(s, c => if IsKatakanaLetter(c) then (c as int - 0x60) as char else c)
  }

  /** The inverse direction, used to state that the conversion loses nothing. */
  function ToKatakana(s: string): (r: string)
    ensures |r| == |s|
  {
    MapChars(s, c => if IsHiraganaLetter(c) then (c as int + 0x60) as char else c)
  }

  /** Converting a reading to hiragana and back restores it, provided it contained no
      hiragana to begin with. */
  lemma {:induction false} HiraganaRoundTrip(s: string)
    requires forall i :: 0 <= i < |s| ==> !IsHiraganaLetter(s[i])
    ensures ToKatakana(ToHiragana(s)) == s
  {
  }

  /** The four letters U+30F7–U+30FA that the source's range adds to the letters with a
      hiragana form. */
  predicate IsExtraPhonetic(c: char) { InPhoneticRange(c) && !IsKatakanaLetter(c) }

  /** Away from those four letters the conversion as written and the corrected one agree. */
  lemma {:induction false} AsWrittenAgreesOffExtras(s: string)
    requires NoneOf(s, IsExtraPhonetic)
    ensures ToHiraganaAsWritten(s) == ToHiragana(s)
  {
    var a, b := ToHiraganaAsWritten(s), ToHiragana(s);
    forall i | 0 <= i < |s| ensures a[i] == b[i] {
      assert !IsExtraPhonetic(s[i]);
    }
  }

  /** The payee branch of `postProcessOcrResult`: legal forms removed (`removeNgWords`),
      white space collapsed and trimmed. */
  function PayeeField(t: string): (r: string)
    ensures SpaceNormal(r) && Trim(r) == r
    ensures forall c :: c in r ==> c == ' ' || c in RemoveNgWords(t)
  {
    var c := CollapseSpaces(RemoveNgWords(t));
    TrimKeepsChars(c);
    TrimKeepsNormal(c);
    TrimIdempotent(c);
    Trim(c)
  }

  /** `postProcessOcrResult(text, fieldType)`; the NFC normalisation is taken as the identity. */
  function PostProcess(text: string, field: FieldType): (r: string)
    ensures text == [] ==> r == []
    ensures field == PayeeName ==> SpaceNormal(r) && Trim(r) == r
    ensures field == PhoneNumber ==> forall i :: 0 <= i < |r| ==> IsPhoneOutChar(r[i])
    ensures field !in {PayeeName, PhoneNumber} ==> |r| <= |text|
    ensures text != [] && field == PayeeName ==> r == PayeeField(CharStages(Trim(text)))
    ensures text != [] && field == PhoneNumber ==> r == PhoneField(CharStages(Trim(text)))
    ensures text != [] && field == Phonetic ==> r == ToHiraganaAsWritten(CharStages(Trim(text)))
    ensures field == Phonetic ==> NoneOf(r, InPhoneticRange)
    ensures text != [] && field in {Clipboard, OtherField} ==> r == CharStages(Trim(text))
  {
    if text == [] then []
    else
      var t := CharStages(Trim(text));
      match field
      case PayeeName => PayeeField(t)
      case PhoneNumber => PhoneField(t)
      case Phonetic => ToHiraganaAsWritten(t)
      case Clipboard => t
      case OtherField => t
  }

  /** A reading free of the four extra letters comes back with every katakana letter
      turned into a hiragana letter and every other character kept. */
  lemma {:induction false} PhoneticReading(text: string)
    requires text != [] && NoneOf(CharStages(Trim(text)), IsExtraPhonetic)
    ensures var t := CharStages(Trim(text));
      var r := PostProcess(text, Phonetic);
      && r == ToHiragana(t)
      && (forall i :: 0 <= i < |t| ==> (IsKatakanaLetter(t[i]) ==> IsHiraganaLetter(r[i])))
      && (forall i :: 0 <= i < |t| ==> (!IsKatakanaLetter(t[i]) ==> r[i] == t[i]))
  {
    AsWrittenAgreesOffExtras(CharStages(Trim(text)));
  }

  lemma {:induction false} PhoneFilterFixes(s: string)
    requires forall i :: 0 <= i < |s| ==> IsPhoneOutChar(s[i]) && s[i] != ','
    ensures Filter(s, IsPhoneChar) == s && Trim(s) == s
  {
    assert forall i :: 0 <= i < |s| ==> IsPhoneChar(s[i]);
    assert forall i :: 0 <= i < |s| ==> !IsSpace(s[i]);
  }

  /** Every piece of a multi-number result is a formatted number, which formatting keeps. */
  lemma {:induction false} FormattedPieceFixed(x: string)
    ensures FormatPiece(FormatPhoneNumber(x)) == FormatPhoneNumber(x)
  {
    var f := FormatPhoneNumber(x);
    PhoneFilterFixes(f);
    FormatIdempotent(x);
  }

  lemma {:induction false} PiecesFixed(parts: seq<string>)
    ensures FormatPieces(FormatPieces(parts)) == FormatPieces(parts)
  {
    forall k | 0 <= k < |parts| ensures FormatPiece(FormatPiece(parts[k])) == FormatPiece(parts[k]) {
      FormattedPieceFixed(Filter(Trim(parts[k]), IsPhoneChar));
    }
  }

  lemma {:induction false} JoinHasComma(pieces: seq<string>)
    requires |pieces| >= 2
    ensures ',' in Join(pieces, ",")
  {
    assert Join(pieces, ",")[|pieces[0]|] == ',';
  }

  lemma {:induction false} MultiNumberFixed(t: string)
    requires ',' in t || '、' in t
    ensures PhoneField(PhoneField(t)) == PhoneField(t)
  {
    var parts := Split(t, IsListSeparator);
    var r := Join(FormatPieces(parts), ",");
    assert r == PhoneField(t);
    MultiPieces(t);
    RejoinPieces(parts, r);
  }

  /** A text with a separator splits into at least two pieces. */
  lemma {:induction false} MultiPieces(t: string)
    requires ',' in t || '、' in t
    ensures |Split(t, IsListSeparator)| >= 2
  {
    assert !NoneOf(t, IsListSeparator);
  }

  /** Formatted pieces joined by commas come back from the multi-number branch unchanged. */
  lemma {:induction false} RejoinPieces(parts: seq<string>, r: string)
    requires |parts| >= 2 && r == Join(FormatPieces(parts), ",")
    requires forall i :: 0 <= i < |r| ==> IsPhoneOutChar(r[i])
    ensures PhoneField(r) == r
  {
    var pieces := FormatPieces(parts);
    JoinHasComma(pieces);
    SplitJoin(pieces);
    SplitAgrees(r, IsListSeparator, IsComma);
    PiecesFixed(parts);
  }

  lemma {:induction false} SingleNumberFixed(t: string)
    requires ',' !in t && '、' !in t
    ensures PhoneField(PhoneField(t)) == PhoneField(t)
  {
    var x := Filter(t, IsPhoneChar);
    var r := FormatPhoneNumber(x);
    assert r == PhoneField(t);
    assert ',' !in r && '、' !in r;
    PhoneFilterFixes(r);
    FormatIdempotent(x);
  }

  /** The telephone branch applied to its own output changes nothing. */
  lemma {:induction false} PhoneFieldStable(t: string)
    ensures PhoneField(PhoneField(t)) == PhoneField(t)
  {
    if ',' in t || '、' in t {
      MultiNumberFixed(t);
    } else {
      SingleNumberFixed(t);
    }
  }

  /** A telephone result is ASCII without surrounding white space, so the first stages keep it. */
  lemma {:induction false} PhoneOutStaged(r: string)
    requires forall i :: 0 <= i < |r| ==> IsPhoneOutChar(r[i])
    ensures CharStages(Trim(r)) == r
  {
    assert forall i :: 0 <= i < |r| ==> !IsSpace(r[i]);
    CharStagesFixAscii(r);
  }

  /** Post-processing a telephone field twice gives the same result as once. */
  lemma {:induction false} PhoneFieldIdempotent(text: string)
    ensures PostProcess(PostProcess(text, PhoneNumber), PhoneNumber) == PostProcess(text, PhoneNumber)
  {
    var r := PostProcess(text, PhoneNumber);
    if r != [] {
      PhoneFieldStable(CharStages(Trim(text)));
      PhoneOutStaged(r);
    }
  }

}
