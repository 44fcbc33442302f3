/**
 * The interface-language store: the English and Chinese message tables, the
 * lookup `t` that falls back to the key, the current language (Chinese at
 * start, changed by `setLang`), and `formatString`, which fills `{name}`
 * placeholders in a message from an argument record.
 */
module I18n {
  import opened Common
  import opened Decimal

  /** `Language`. */
  datatype Lang = En | Zh

  /** A value of the argument record: a string or a (whole) number. */
  datatype ArgValue = Str(s: string) | Num(n: int)

  /** JavaScript truthiness: the empty string and 0 are falsy. */
  predicate Truthy(v: ArgValue) {
    match v
    case Str(s) => s != ""
    case Num(n) => n != 0
  }

  /** `String(v)`. */
  function ToJsString(v: ArgValue): string {
    match v
    case Str(s) => s
    case Num(n) => IntToString(n)
  }

  /** `String(args[key] || '')`: the argument's text when it is truthy, else the empty string. */
  function ArgText(args: map<string, ArgValue>, key: string): (r: string)
    ensures r == "" <==> key !in args || !Truthy(args[key])
    ensures key in args && Truthy(args[key]) ==> r == ToJsString(args[key])
  {
    if key in args && Truthy(args[key]) then ToJsString(args[key]) else ""
  }

  /** The regular-expression class `\w`: ASCII letters, digits and the underscore. */
  predicate IsWordChar(c: char) {
    ('a' <= c <= 'z') || ('A' <= c <= 'Z') || ('0' <= c <= '9') || c == '_'
  }

  /** The length of the longest run of word characters `s` starts with. */
  function WordRun(s: string): (w: nat)
    ensures w <= |s|
    ensures forall k :: 0 <= k < w ==> IsWordChar(s[k])
    ensures w < |s| ==> !IsWordChar(s[w])
  {
    if s == [] || !IsWordChar(s[0]) then 0 else 1 + WordRun(s[1..])
  }

  /**
   * The length of the placeholder `{name}` at the start of `s`, or 0 when
   * `s` does not start with one. `\w+` is greedy and the character after
   * the longest word run is not a word character, so the pattern matches at
   * the start exactly when that character is the closing brace.
   */
  function PlaceholderLength(s: string): (len: nat)
    ensures len == 0 || (3 <= len <= |s| && s[0] == '{' && s[len - 1] == '}')
    ensures len > 0 ==> forall k :: 0 < k < len - 1 ==> IsWordChar(s[k])
  {
    if s != [] && s[0] == '{' then
      var w := WordRun(s[1..]);
      if w > 0 && w + 1 < |s| && s[w + 1] == '}' then w + 2 else 0
    else 0
  }

  /**
   * `formatString(str, args)`: `str.replace(/{(\w+)}/g, ...)`. The text is
   * scanned from the left; a placeholder is replaced by its argument's text
   * and scanning resumes after it, every other character is copied.
   */
  function FormatString(s: string, args: map<string, ArgValue>): string
    decreases |s|
  {
    if s == [] then []
    else
      var len := PlaceholderLength(s);
      if len > 0 then ArgText(args, s[1..len - 1]) + FormatString(s[len..], args)
      else [s[0]] + FormatString(s[1..], args)
  }

  /** `s[i..j+1]` is a placeholder: a brace, one or more word characters, a closing brace. */
  predicate PlaceholderAt(s: string, i: nat, j: nat) {
    && i + 1 < j < |s|
    && s[i] == '{' && s[j] == '}'
    && forall k :: i < k < j ==> IsWordChar(s[k])
  }

  /** The text holds a `{name}` placeholder somewhere. */
  predicate ContainsPlaceholder(s: string) {
    exists i: nat, j: nat | i < j < |s| :: PlaceholderAt(s, i, j)
  }

  /** A run of `m` word characters followed by a non-word character is the longest run. */
  lemma {:induction false} WordRunExact(s: string, m: nat)
    requires m < |s| && !IsWordChar(s[m])
    requires forall k :: 0 <= k < m ==> IsWordChar(s[k])
    ensures WordRun(s) == m
  {
    if m > 0 {
      assert forall k :: 0 <= k < m - 1 ==> s[1..][k] == s[k + 1];
      WordRunExact(s[1..], m - 1);
    }
  }

  /** The placeholder the scanner recognises at the start is a placeholder, and conversely. */
  lemma PlaceholderAtStart(s: string, j: nat)
    ensures PlaceholderAt(s, 0, j) ==> PlaceholderLength(s) == j + 1
    ensures PlaceholderLength(s) > 0 ==> PlaceholderAt(s, 0, PlaceholderLength(s) - 1)
  {
    if PlaceholderAt(s, 0, j) {
      assert forall k :: 0 <= k < j - 1 ==> s[1..][k] == s[k + 1];
      assert s[1..][j - 1] == '}';
      WordRunExact(s[1..], j - 1);
    }
    var len := PlaceholderLength(s);
    if len > 0 {
      forall k | 0 < k < len - 1
        ensures IsWordChar(s[k])
      {
        assert s[1..][k - 1] == s[k];
      }
    }
  }

  /** A placeholder further on in `s[1..]` is one in `s`, shifted by one. */
  lemma PlaceholderShift(s: string, i: nat, j: nat)
    requires |s| > 0
    ensures PlaceholderAt(s[1..], i, j) <==> PlaceholderAt(s, i + 1, j + 1)
  {
    if PlaceholderAt(s[1..], i, j) {
      forall k | i + 1 < k < j + 1
        ensures IsWordChar(s[k])
      {
        assert s[1..][k - 1] == s[k];
      }
    }
    if PlaceholderAt(s, i + 1, j + 1) {
      forall k | i < k < j
        ensures IsWordChar(s[1..][k])
      {
        assert s[1..][k] == s[k + 1];
      }
    }
  }

  /** A placeholder the scanner recognises at the start counts as one. */
  lemma PlaceholderFoundAtStart(s: string)
    ensures PlaceholderLength(s) > 0 ==> ContainsPlaceholder(s)
  {
    PlaceholderAtStart(s, 0);
    if PlaceholderLength(s) > 0 {
      assert PlaceholderAt(s, 0, PlaceholderLength(s) - 1);
    }
  }

  /** A placeholder in the tail is one in the whole text. */
  lemma PlaceholderFoundInTail(s: string)
    requires |s| > 0
    ensures ContainsPlaceholder(s[1..]) ==> ContainsPlaceholder(s)
  {
    if ContainsPlaceholder(s[1..]) {
      var i: nat, j: nat :| i < j < |s[1..]| && PlaceholderAt(s[1..], i, j);
      PlaceholderShift(s, i, j);
      assert PlaceholderAt(s, i + 1, j + 1);
    }
  }

  /** A template without placeholders is returned unchanged, whatever the arguments. */
  lemma {:induction false} NoPlaceholderUnchanged(s: string, args: map<string, ArgValue>)
    requires !ContainsPlaceholder(s)
    ensures FormatString(s, args) == s
    decreases |s|
  {
    if s != [] {
      PlaceholderFoundAtStart(s);
      PlaceholderFoundInTail(s);
      NoPlaceholderUnchanged(s[1..], args);
      assert [s[0]] + s[1..] == s;
    }
  }

  /**
   * With no arguments every placeholder is blanked, so the result is never
   * longer than the template and is strictly shorter when the template
   * holds a placeholder.
   */
  lemma {:induction false} BlankingShortens(s: string)
    ensures |FormatString(s, map[])| <= |s|
    ensures ContainsPlaceholder(s) ==> |FormatString(s, map[])| < |s|
    decreases |s|
  {
    if s != [] {
      var len := PlaceholderLength(s);
      if len > 0 {
        BlankingShortens(s[len..]);
      } else {
        BlankingShortens(s[1..]);
        if ContainsPlaceholder(s) {
          var i: nat, j: nat :| i < j < |s| && PlaceholderAt(s, i, j);
          PlaceholderAtStart(s, j);
          assert 0 < i < j;
          PlaceholderShift(s, i - 1, j - 1);
          assert PlaceholderAt(s[1..], i - 1, j - 1);
        }
      }
    }
  }

  /** With no arguments the template comes back unchanged exactly when it holds no placeholder. */
  lemma UnchangedIffNoPlaceholder(s: string)
    ensures FormatString(s, map[]) == s <==> !ContainsPlaceholder(s)
  {
    BlankingShortens(s);
    if !ContainsPlaceholder(s) {
      NoPlaceholderUnchanged(s, map[]);
    }
  }

  /**
   * A placeholder followed by more text: the argument's text, then the rest
   * formatted. The inserted text is not scanned again, so placeholders
   * inside an argument's value reach the output as they are.
   */
  lemma PlaceholderReplaced(key: string, rest: string, args: map<string, ArgValue>)
    requires |key| > 0 && forall k :: 0 <= k < |key| ==> IsWordChar(key[k])
    ensures FormatString("{" + key + "}" + rest, args) == ArgText(args, key) + FormatString(rest, args)
  {
    var s := "{" + key + "}" + rest;
    assert PlaceholderAt(s, 0, |key| + 1) by {
      forall k | 0 < k < |key| + 1
        ensures IsWordChar(s[k])
      {
        assert s[k] == key[k - 1];
      }
    }
    PlaceholderAtStart(s, |key| + 1);
    assert s[1..|key| + 1] == key;
    assert s[|key| + 2..] == rest;
  }

  /**
   * Any character that does not open a placeholder, a brace included, is
   * copied to the output in place and scanning goes on after it.
   */
  lemma CopiedVerbatim(s: string, args: map<string, ArgValue>)
    requires |s| > 0 && forall j: nat :: !PlaceholderAt(s, 0, j)
    ensures FormatString(s, args) == [s[0]] + FormatString(s[1..], args)
  {
    PlaceholderAtStart(s, 0);
  }

  /**
   * Single pass: a non-empty string argument is inserted exactly as it is,
   * even when it holds placeholders itself, and scanning resumes after the
   * placeholder it replaced.
   */
  lemma SinglePass(key: string, rest: string, args: map<string, ArgValue>, v: string)
    requires |key| > 0 && forall k :: 0 <= k < |key| ==> IsWordChar(key[k])
    requires key in args && args[key] == Str(v) && v != ""
    ensures FormatString("{" + key + "}" + rest, args) == v + FormatString(rest, args)
  {
    PlaceholderReplaced(key, rest, args);
  }

  /** Braces around nothing, or around a non-word character, are not placeholders. */
  lemma NotPlaceholders(args: map<string, ArgValue>)
    ensures FormatString("{}", args) == "{}"
    ensures FormatString("{a-b}", args) == "{a-b}"
  {
    assert !PlaceholderAt("{}", 0, 1);
    assert "{a-b}"[2] == '-';
    NoPlaceholderUnchanged("{}", args);
    NoPlaceholderUnchanged("{a-b}", args);
  }

  /** A missing argument, the empty string and the number 0 all blank the placeholder. */
  lemma FalsyBlanks(key: string, rest: string, args: map<string, ArgValue>)
    requires |key| > 0 && forall k :: 0 <= k < |key| ==> IsWordChar(key[k])
    requires key !in args || args[key] == Num(0) || args[key] == Str("")
    ensures FormatString("{" + key + "}" + rest, args) == FormatString(rest, args)
  {
    PlaceholderReplaced(key, rest, args);
  }

  /** `keyof typeof translations.en`: the message keys. */
  datatype Key = Title | Subtitle | UploadTitle | UploadDesc | UploadSupport | ChangeFile
    | ConfigTitle | SplitCount | TotalPages | WillGenerate | StitchingOptions | AddGap | AddBorder
    | Direction | Vertical | Horizontal | Quality | HighQuality | HighQualityDesc | NormalQuality
    | NormalQualityDesc | StartConversion | PreviewTitle | DownloadAll | PreviewPlaceholder
    | Loading | Processing | Zipping | ErrorLoad | ErrorZip | MoreImages | Part

  /** The key as written in the source, which `t` falls back to. */
  function KeyName(key: Key): string {
    match key
    case Title => "title"
    case Subtitle => "subtitle"
    case UploadTitle => "uploadTitle"
    case UploadDesc => "uploadDesc"
    case UploadSupport => "uploadSupport"
    case ChangeFile => "changeFile"
    case ConfigTitle => "configTitle"
    case SplitCount => "splitCount"
    case TotalPages => "totalPages"
    case WillGenerate => "willGenerate"
    case StitchingOptions => "stitchingOptions"
    case AddGap => "addGap"
    case AddBorder => "addBorder"
    case Direction => "direction"
    case Vertical => "vertical"
    case Horizontal => "horizontal"
    case Quality => "quality"
    case HighQuality => "highQuality"
    case HighQualityDesc => "highQualityDesc"
    case NormalQuality => "normalQuality"
    case NormalQualityDesc => "normalQualityDesc"
    case StartConversion => "startConversion"
    case PreviewTitle => "previewTitle"
    case DownloadAll => "downloadAll"
    case PreviewPlaceholder => "previewPlaceholder"
    case Loading => "loading"
    case Processing => "processing"
    case Zipping => "zipping"
    case ErrorLoad => "errorLoad"
    case ErrorZip => "errorZip"
    case MoreImages => "moreImages"
    case Part => "part"
  }

  /** `translations.en[key]`. */
  function English(key: Key): string {
    match key
    case Title => "PDF Stitcher"
    case Subtitle => "Convert PDF pages into stitched long images entirely in your browser"
    case UploadTitle => "Upload PDF File"
    case UploadDesc => "Drag and drop or click to browse"
    case UploadSupport => "Supports PDF files only"
    case ChangeFile => "Change"
    case ConfigTitle => "Configuration"
    case SplitCount => "Split into N Images"
    case TotalPages => "Total pages"
    case WillGenerate => "Will generate {n} images, approx {p} pages each."
    case StitchingOptions => "Stitching Options"
    case AddGap => "Add Gap"
    case AddBorder => "Add Border"
    case Direction => "Stitching Direction"
    case Vertical => "Vertical"
    case Horizontal => "Horizontal"
    case Quality => "Output Quality"
    case HighQuality => "High Quality"
    case HighQualityDesc => "PNG Format"
    case NormalQuality => "Normal"
    case NormalQualityDesc => "JPG Format"
    case StartConversion => "Start Conversion"
    case PreviewTitle => "Preview"
    case DownloadAll => "Download All"
    case PreviewPlaceholder => "Upload a PDF to see the preview here"
    case Loading => "Loading PDF..."
    case Processing => "Processing..."
    case Zipping => "Creating ZIP file..."
    case ErrorLoad => "Failed to load PDF. Please try another file."
    case ErrorZip => "Failed to create ZIP file."
    case MoreImages => "... and {n} more images. Download to view all."
    case Part => "Part"
  }

  /** `translations.zh[key]`. */
  function Chinese(key: Key): string {
    match key
    case Title => "PDF 拼图工具"
    case Subtitle => "纯前端运行，安全快速将 PDF 转换为长图"
    case UploadTitle => "上传 PDF 文件"
    case UploadDesc => "拖拽文件到此处或点击上传"
    case UploadSupport => "仅支持 PDF 文件"
    case ChangeFile => "更换文件"
    case ConfigTitle => "设置"
    case SplitCount => "切分为 N 张图片"
    case TotalPages => "共 {n} 页"
    case WillGenerate => "将生成 {n} 张图片，每张约 {p} 页"
    case StitchingOptions => "拼接选项"
    case AddGap => "增加间距"
    case AddBorder => "增加边框"
    case Direction => "拼接方向"
    case Vertical => "垂直拼接"
    case Horizontal => "水平拼接"
    case Quality => "输出质量"
    case HighQuality => "高质量"
    case HighQualityDesc => "PNG 格式"
    case NormalQuality => "普通"
    case NormalQualityDesc => "JPG 格式"
    case StartConversion => "开始转换"
    case PreviewTitle => "预览"
    case DownloadAll => "打包下载"
    case PreviewPlaceholder => "上传 PDF 后在此处预览"
    case Loading => "加载 PDF 中..."
    case Processing => "处理中..."
    case Zipping => "打包中..."
    case ErrorLoad => "加载 PDF 失败，请重试"
    case ErrorZip => "创建压缩包失败"
    case MoreImages => "... 还有 {n} 张图片，请下载查看全部"
    case Part => "第 {n} 部分"
  }

  /** `translations[lang][key]`. */
  function Message(lang: Lang, key: Key): string {
    if lang == En then English(key) else Chinese(key)
  }

  /** `translations[lang][key] || key`: the message, or the key itself when the message is empty. */
  function Translate(lang: Lang, key: Key): string {
    if Message(lang, key) != "" then Message(lang, key) else KeyName(key)
  }

  /** The fallback: an empty message is replaced by the key, any other message is returned as it is. */
  lemma TranslateFallsBack(lang: Lang, key: Key)
    ensures Translate(lang, key) != ""
    ensures Message(lang, key) == "" ==> Translate(lang, key) == KeyName(key)
    ensures Message(lang, key) != "" ==> Translate(lang, key) == Message(lang, key)
  {
  }

  /** No English message is empty. */
  lemma EnglishComplete(key: Key)
    ensures English(key) != ""
  {
    match key
    case Title =>
    case Subtitle =>
    case UploadTitle =>
    case UploadDesc =>
    case UploadSupport =>
    case ChangeFile =>
    case ConfigTitle =>
    case SplitCount =>
    case TotalPages =>
    case WillGenerate =>
    case StitchingOptions =>
    case AddGap =>
    case AddBorder =>
    case Direction =>
    case Vertical =>
    case Horizontal =>
    case Quality =>
    case HighQuality =>
    case HighQualityDesc =>
    case NormalQuality =>
    case NormalQualityDesc =>
    case StartConversion =>
    case PreviewTitle =>
    case DownloadAll =>
    case PreviewPlaceholder =>
    case Loading =>
    case Processing =>
    case Zipping =>
    case ErrorLoad =>
    case ErrorZip =>
    case MoreImages =>
    case Part =>
  }

  /** No Chinese message is empty. */
  lemma ChineseComplete(key: Key)
    ensures |Chinese(key)| > 0
  {
  }

  /** Every message of both languages is non-empty, so a lookup never falls back to the key. */
  lemma TablesComplete(lang: Lang, key: Key)
    ensures Message(lang, key) != ""
    ensures Translate(lang, key) == Message(lang, key)
  {
    EnglishComplete(key);
    ChineseComplete(key);
  }

  /** The store's state: the current interface language. */
  class I18nStore {
    var lang: Lang

    /** The store starts out in Chinese. */
    constructor()
      ensures lang == Zh
    {
      lang := Zh;
    }

    /** `setLang`: switch the language; nothing else is stored. */
    method SetLang(l: Lang)
      modifies this
      ensures lang == l
    {
      lang := l;
    }

    /** `t(key)`: the current language's message, or the key itself. */
    function T(key: Key): (r: string)
      reads this
      ensures r == Message(lang, key)
    {
      TablesComplete(lang, key);
      Translate(lang, key)
    }
  }

  /** After `setLang(l)` every lookup is the language `l` lookup. */
  method SwitchAndLookup(store: I18nStore, l: Lang, key: Key) returns (r: string)
    modifies store
    ensures store.lang == l
    ensures r == Translate(l, key)
  {
    store.SetLang(l);
    r := store.T(key);
  }
}
