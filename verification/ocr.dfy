/**
  The recogniser front end of module/ocr/ocr.py: joining and correcting the characters
  the model reports, one result per area in area order, the single-area unwrap, and the
  typed fields built on it (Digit, DigitCounter, Duration).

  The recognition model itself (OCR_MODEL[lang] with its candidate alphabet set) and the
  image work are parameters: `crop` cuts one area out of the screenshot, and `engine`
  pre-processes one raw line image and turns it into its characters. The engine sees
  every line, cropped or given directly, so both modes are pre-processed alike.
*/
module Ocr {
  import opened Results
  import opened Strings
  import opened Decimal
  import TimePattern

  /** The keys of OCR_MODEL. */
  datatype Lang = AzurLane | Cnocr | Jp | Tw

  /** The `buttons` argument: a single area or a list of areas. */
  datatype Buttons<Area> = One(area: Area) | List(areas: seq<Area>)

  /** A recogniser: its areas, its model and its candidate alphabet (`None`: unrestricted). */
  datatype Field<Area> = Field(buttons: Buttons<Area>, lang: Lang, alphabet: Option<string>)

  /** What `ocr` is given: the screenshot to crop, or (direct_ocr) the line images themselves. */
  datatype Source<Img> = Screen(image: Img) | Direct(images: seq<Img>)

  /** What `ocr` returns: the bare value when one area is configured, a list otherwise. */
  datatype Output<T> = Single(value: T) | Many(values: seq<T>)

  /** The exceptions that escape `ocr`. */
  datatype OcrError =
    | IndexError  // `result_list[0]` on an empty list
    | ValueError  // `int()` on text that is not a number

  /** Pre-processing plus the recognition model: language, candidate alphabet and raw line image to characters. */
  type Engine<-Img> = (Lang, Option<string>, Img) -> seq<string>

  /** The default candidate alphabets of Digit, DigitCounter and Duration. */
  const DigitAlphabet: string := "0123456789"
  const CounterAlphabet: string := "0123456789/"
  const DurationAlphabet: string := "0123456789:"

  /** `self.buttons`: a single area becomes a one-element list. */
  function Areas<Area>(b: Buttons<Area>): seq<Area> {
    match b
    case One(area) => [area]
    case List(areas) => areas
  }

  /** The line images fed to the model: one crop per area, or the direct images as given. */
  function LineImages<Img, Area>(f: Field<Area>, src: Source<Img>, crop: (Img, Area) -> Img): seq<Img> {
    match src
    case Screen(image) =>
      var areas := Areas(f.buttons);
      seq(|areas|, i requires 0 <= i < |areas| => crop(image, areas[i]))
    case Direct(images) => images
  }

  /** `ocr_for_single_lines`: the characters the model reports for each line, in line order. */
  function Recognised<Img, Area>(f: Field<Area>, src: Source<Img>, crop: (Img, Area) -> Img, engine: Engine<Img>): seq<seq<string>> {
    var lines := LineImages(f, src, crop);
    seq(|lines|, i requires 0 <= i < |lines| => engine(f.lang, f.alphabet, lines[i]))
  }

  /** Every character reported for a line lies in `alphabet`. */
  predicate InAlphabet(chars: seq<string>, alphabet: string) {
    forall i, j :: 0 <= i < |chars| && 0 <= j < |chars[i]| ==> chars[i][j] in alphabet
  }

  /** `Ocr.after_process`: join the characters; the tw model cannot produce `艦`, so `鑑` stands in for it. */
  function AfterProcess(lang: Lang, chars: seq<string>): (r: string)
    ensures |r| == |Join(chars)|
    ensures lang != Tw ==> r == Join(chars)
    ensures lang == Tw ==> '鑑' !in r
    ensures lang == Tw ==> forall i :: 0 <= i < |r| ==> r[i] == if Join(chars)[i] == '鑑' then '艦' else Join(chars)[i]
  {
    var text := Join(chars);
    if lang == Tw then Replace(text, '鑑', '艦') else text
  }

  /** Post-processing what is already post-processed changes nothing. */
  lemma AfterProcessIdempotent(lang: Lang, chars: seq<string>)
    ensures AfterProcess(lang, Chars(AfterProcess(lang, chars))) == AfterProcess(lang, chars)
  {
    var r := AfterProcess(lang, chars);
    JoinChars(r);
    if lang == Tw {
      ReplaceAbsent(r, '鑑', '艦');
    }
  }

  /** The characters of a text with no `鑑` post-process back to that text, whatever the model. */
  lemma AfterProcessChars(lang: Lang, text: string)
    requires '鑑' !in text
    ensures AfterProcess(lang, Chars(text)) == text
  {
    JoinChars(text);
    ReplaceAbsent(text, '鑑', '艦');
  }

  /** Applies a post-processing step to each line in order, stopping at the first error. */
  function PostAll<T>(raw: seq<seq<string>>, post: seq<string> -> Result<T, OcrError>): (r: Result<seq<T>, OcrError>)
    ensures r.Ok? <==> forall i :: 0 <= i < |raw| ==> post(raw[i]).Ok?
    ensures r.Ok? ==> |r.value| == |raw| && forall i :: 0 <= i < |raw| ==> r.value[i] == post(raw[i]).value
    ensures r.Err? ==> exists i :: 0 <= i < |raw| && post(raw[i]) == Err(r.error)
  {
    if |raw| == 0 then Ok([])
    else
      match post(raw[0])
      case Err(e) => Err(e)
      case Ok(v) =>
        match PostAll(raw[1..], post)
        case Err(e) => Err(e)
        case Ok(vs) => Ok([v] + vs)
  }

  /**
    `Ocr.ocr` with a field's post-processing: one processed result per line in line order,
    unwrapped to the bare first result exactly when one area is configured.
  */
  function Recognise<Img, Area, T>(f: Field<Area>, src: Source<Img>, crop: (Img, Area) -> Img, engine: Engine<Img>,
                                   post: seq<string> -> Result<T, OcrError>): (r: Result<Output<T>, OcrError>)
    ensures var raw, n := Recognised(f, src, crop, engine), |Areas(f.buttons)|;
      && (r.Ok? <==> (forall i :: 0 <= i < |raw| ==> post(raw[i]).Ok?) && (n != 1 || |raw| > 0))
      && (r.Err? && (forall i :: 0 <= i < |raw| ==> post(raw[i]).Ok?) ==> r.error == IndexError)
      && (r.Err? && !(forall i :: 0 <= i < |raw| ==> post(raw[i]).Ok?) ==>
            exists i :: 0 <= i < |raw| && post(raw[i]) == Err(r.error))
      && (r.Ok? ==> (r.value.Single? <==> n == 1))
      && (r.Ok? && r.value.Single? ==> r.value.value == post(raw[0]).value)
      && (r.Ok? && r.value.Many? ==>
            |r.value.values| == |raw| && forall i :: 0 <= i < |raw| ==> r.value.values[i] == post(raw[i]).value)
  {
    var raw := Recognised(f, src, crop, engine);
    match PostAll(raw, post)
    case Err(e) => Err(e)
    case Ok(results) =>
      if |Areas(f.buttons)| == 1 then
        if |results| == 0 then Err(IndexError) else Ok(Single(results[0]))
      else Ok(Many(results))
  }

  /** On a screenshot there is one line per configured area. */
  lemma ScreenLines<Img, Area>(f: Field<Area>, image: Img, crop: (Img, Area) -> Img, engine: Engine<Img>)
    ensures |Recognised(f, Screen(image), crop, engine)| == |Areas(f.buttons)|
  {
  }

  /** `Ocr.ocr`: the post-processed text of each line. */
  function OcrText<Img, Area>(f: Field<Area>, src: Source<Img>, crop: (Img, Area) -> Img, engine: Engine<Img>): (r: Result<Output<string>, OcrError>)
    ensures var raw, n := Recognised(f, src, crop, engine), |Areas(f.buttons)|;
      && (r.Err? <==> n == 1 && |raw| == 0)
      && (r.Err? ==> r.error == IndexError)
      && (r.Ok? ==> (r.value.Single? <==> n == 1))
      && (r.Ok? && r.value.Single? ==> r.value.value == AfterProcess(f.lang, raw[0]))
      && (r.Ok? && r.value.Many? ==>
            |r.value.values| == |raw| && forall i :: 0 <= i < |raw| ==> r.value.values[i] == AfterProcess(f.lang, raw[i]))
      && (src.Screen? ==> r.Ok?)
  {
    Recognise(f, src, crop, engine, chars => Ok(AfterProcess(f.lang, chars)))
  }

  /** `Digit.after_process`: the empty text reads as 0, digits as their decimal value. */
  function DigitAfterProcess(lang: Lang, chars: seq<string>): (r: Result<nat, OcrError>)
    ensures var text := AfterProcess(lang, chars);
      && (text == [] ==> r == Ok(0))
      && (r.Ok? <==> IsDigits(text))
      && (r.Ok? && text != [] ==> r.value == Value(text))
      && (r.Err? ==> r.error == ValueError)
  {
    var text := AfterProcess(lang, chars);
    if text == [] then Ok(0)
    else if IsDigits(text) then Ok(Value(text))
    else Err(ValueError)
  }

  /** Reading the characters of `str(n)` gives back `n`. */
  lemma DigitRoundTrip(lang: Lang, n: nat)
    ensures DigitAfterProcess(lang, Chars(Render(n))) == Ok(n)
  {
    var s := Render(n);
    assert forall i :: 0 <= i < |s| ==> IsDigit(s[i]) && s[i] != '鑑';
    AfterProcessChars(lang, s);
    ValueRender(n);
  }

  /** Leading zeros do not change the number read: `042` reads as 42. */
  lemma DigitLeadingZero(lang: Lang, s: string)
    requires IsNumber(s)
    ensures DigitAfterProcess(lang, Chars("0" + s)) == DigitAfterProcess(lang, Chars(s))
  {
    assert forall i :: 0 <= i < |s| ==> IsDigit(s[i]) && s[i] != '鑑';
    var t := "0" + s;
    assert forall i :: 0 <= i < |t| ==> IsDigit(t[i]) && t[i] != '鑑' by {
      forall i | 0 <= i < |t|
        ensures IsDigit(t[i]) && t[i] != '鑑'
      {
        if i > 0 {
          assert t[i] == s[i - 1];
        }
      }
    }
    AfterProcessChars(lang, s);
    AfterProcessChars(lang, t);
    ValueLeadingZero(s);
  }

  /** `042` reads as 42. */
  lemma DigitExampleLeadingZero(lang: Lang)
    ensures DigitAfterProcess(lang, Chars("042")) == Ok(42)
  {
    DigitRoundTrip(lang, 42);
    assert Render(42) == "42" by {
      assert Render(4) == "4";
    }
    DigitLeadingZero(lang, "42");
    assert "0" + "42" == "042";
  }

  /** Characters from the digit alphabet always read as a number. */
  lemma DigitAlphabetParses(lang: Lang, chars: seq<string>)
    requires InAlphabet(chars, DigitAlphabet)
    ensures DigitAfterProcess(lang, chars).Ok?
  {
    var joined, text := Join(chars), AfterProcess(lang, chars);
    JoinAlphabet(chars, DigitAlphabet);
    forall k | 0 <= k < |text|
      ensures IsDigit(text[k])
    {
      DigitAlphabetDigit(joined[k]);
    }
  }

  /** Joining characters drawn from an alphabet gives a text drawn from it. */
  lemma JoinAlphabet(chars: seq<string>, alphabet: string)
    requires InAlphabet(chars, alphabet)
    ensures forall k :: 0 <= k < |Join(chars)| ==> Join(chars)[k] in alphabet
  {
    forall k | 0 <= k < |Join(chars)|
      ensures Join(chars)[k] in alphabet
    {
      var c := Join(chars)[k];
      assert c in Join(chars);
      var i :| 0 <= i < |chars| && c in chars[i];
      var j :| 0 <= j < |chars[i]| && chars[i][j] == c;
    }
  }

  /** The digit alphabet holds digits only, none of them the character the TW fix rewrites. */
  lemma DigitAlphabetDigit(c: char)
    requires c in DigitAlphabet
    ensures IsDigit(c) && c != '鑑'
  {
  }

  /** Every line whose characters come from the digit alphabet reads as a number. */
  lemma DigitLinesParse(lang: Lang, raw: seq<seq<string>>)
    ensures forall i :: 0 <= i < |raw| && InAlphabet(raw[i], DigitAlphabet) ==> DigitAfterProcess(lang, raw[i]).Ok?
  {
    forall i | 0 <= i < |raw| && InAlphabet(raw[i], DigitAlphabet)
      ensures DigitAfterProcess(lang, raw[i]).Ok?
    {
      DigitAlphabetParses(lang, raw[i]);
    }
  }

  /** `Digit.ocr`: a number per line. */
  function DigitOcr<Img, Area>(f: Field<Area>, src: Source<Img>, crop: (Img, Area) -> Img, engine: Engine<Img>): (r: Result<Output<nat>, OcrError>)
    ensures var raw, n := Recognised(f, src, crop, engine), |Areas(f.buttons)|;
      && (r.Ok? <==> (forall i :: 0 <= i < |raw| ==> DigitAfterProcess(f.lang, raw[i]).Ok?) && (n != 1 || |raw| > 0))
      && (r.Err? ==> (r.error == ValueError <==> exists i :: 0 <= i < |raw| && !DigitAfterProcess(f.lang, raw[i]).Ok?))
      && (r.Err? ==> (r.error == IndexError <==> n == 1 && |raw| == 0))
      && (r.Ok? ==> (r.value.Single? <==> n == 1))
      && (r.Ok? && r.value.Single? ==> r.value.value == DigitAfterProcess(f.lang, raw[0]).value)
      && (r.Ok? && r.value.Many? ==>
            |r.value.values| == |raw| && forall i :: 0 <= i < |raw| ==> r.value.values[i] == DigitAfterProcess(f.lang, raw[i]).value)
      && ((forall i :: 0 <= i < |raw| ==> InAlphabet(raw[i], DigitAlphabet)) ==> (r.Err? <==> n == 1 && |raw| == 0))
  {
    DigitLinesParse(f.lang, Recognised(f, src, crop, engine));
    Recognise(f, src, crop, engine, chars => DigitAfterProcess(f.lang, chars))
  }

  /** `(current, remain, total)` as DigitCounter returns it. */
  datatype Counter = Counter(current: nat, remain: nat, total: nat)

  /**
    The parse inside `DigitCounter.ocr`: `current/total` with `current` clamped to `total`.
    `None` stands for the IndexError/ValueError the source catches, logs and answers with (0, 0, 0).
  */
  function ParseCounter(text: string): (r: Option<Counter>)
    ensures r.Some? ==> r.value.current <= r.value.total && r.value.current + r.value.remain == r.value.total
  {
    var parts := Split(text, '/');
    if |parts| == 2 && IsNumber(parts[0]) && IsNumber(parts[1]) then
      var current, total := Value(parts[0]), Value(parts[1]);
      var clamped := if current < total then current else total;
      Some(Counter(clamped, total - clamped, total))
    else None
  }

  /** `text` is `current/total` with the slash at `k` and digits on both sides. */
  ghost predicate CounterAt(text: string, k: int) {
    0 <= k < |text| && text[k] == '/' && IsNumber(text[..k]) && IsNumber(text[k + 1..])
  }

  /** What a successful parse yields for the sides `current` and `total`. */
  function Clamp(current: nat, total: nat): Counter {
    if current <= total then Counter(current, total - current, total) else Counter(total, 0, total)
  }

  lemma NumberHasNoSlash(s: string)
    requires IsDigits(s)
    ensures '/' !in s
  {
    assert forall i :: 0 <= i < |s| ==> IsDigit(s[i]) && s[i] != '/';
  }

  /** A parse that succeeds found two digit strings around a slash. */
  lemma ParseCounterFound(text: string)
    requires ParseCounter(text).Some?
    ensures CounterAt(text, |Split(text, '/')[0]|)
  {
    var parts := Split(text, '/');
    JoinSplit(text, '/');
    var k := |parts[0]|;
    assert text == parts[0] + "/" + parts[1];
    assert text[..k] == parts[0];
    assert text[k + 1..] == parts[1];
  }

  /** Two digit strings around a slash parse to their clamped values. */
  lemma ParseCounterAt(text: string, k: int)
    requires CounterAt(text, k)
    ensures ParseCounter(text) == Some(Clamp(Value(text[..k]), Value(text[k + 1..])))
  {
    var pieces := [text[..k], text[k + 1..]];
    NumberHasNoSlash(text[..k]);
    NumberHasNoSlash(text[k + 1..]);
    assert text == text[..k] + [text[k]] + text[k + 1..];
    assert text == JoinWith(pieces, '/');
    SplitJoin(pieces, '/');
  }

  /**
    The counter parses exactly when the text is two non-empty digit strings around a single
    slash; then the values come back unchanged if `current <= total` and as
    `(total, 0, total)` otherwise.
  */
  lemma ParseCounterSpec(text: string)
    ensures ParseCounter(text).Some? <==> exists k :: CounterAt(text, k)
    ensures forall k :: CounterAt(text, k) ==>
      ParseCounter(text) == Some(Clamp(Value(text[..k]), Value(text[k + 1..])))
  {
    if ParseCounter(text).Some? {
      ParseCounterFound(text);
    }
    forall k | CounterAt(text, k)
      ensures ParseCounter(text) == Some(Clamp(Value(text[..k]), Value(text[k + 1..])))
    {
      ParseCounterAt(text, k);
    }
  }

  /** Parsing `str(current) + '/' + str(total)` gives the clamped counter back. */
  lemma ParseCounterRender(current: nat, total: nat)
    ensures ParseCounter(Render(current) + "/" + Render(total)) == Some(Clamp(current, total))
  {
    var text := Render(current) + "/" + Render(total);
    var k := |Render(current)|;
    assert text[..k] == Render(current) && text[k + 1..] == Render(total);
    ParseCounterAt(text, k);
    ValueRender(current);
    ValueRender(total);
  }

  /** `14/15` reads as (14, 1, 15). */
  lemma CounterExampleInRange()
    ensures ParseCounter("14/15") == Some(Counter(14, 1, 15))
  {
    var text := "14/15";
    assert text[..2] == "14" && text[3..] == "15";
    assert Value("14") == 14 && Value("15") == 15;
    ParseCounterAt(text, 2);
  }

  /** A misread `20/15` is clamped to (15, 0, 15). */
  lemma CounterExampleClamped()
    ensures ParseCounter("20/15") == Some(Counter(15, 0, 15))
  {
    var text := "20/15";
    assert text[..2] == "20" && text[3..] == "15";
    assert Value("20") == 20 && Value("15") == 15;
    ParseCounterAt(text, 2);
  }

  /** A text without a slash, such as `garbage`, does not parse, so DigitCounter falls back to (0, 0, 0). */
  lemma CounterWithoutSlash(text: string)
    requires '/' !in text
    ensures ParseCounter(text) == None
  {
    assert multiset(text)['/'] == 0;
  }

  /**
    `DigitCounter.ocr`: only the first line is read; a text that does not parse gives
    (0, 0, 0). Fails only when there is no line at all.
  */
  function CounterOcr<Img, Area>(f: Field<Area>, src: Source<Img>, crop: (Img, Area) -> Img, engine: Engine<Img>): (r: Result<Counter, OcrError>)
    ensures var raw := Recognised(f, src, crop, engine);
      && (r.Ok? <==> |raw| > 0)
      && (r.Err? ==> r.error == IndexError)
      && (r.Ok? ==> r.value.current <= r.value.total && r.value.current + r.value.remain == r.value.total)
      && (r.Ok? ==> r.value == ParseCounter(AfterProcess(f.lang, raw[0])).GetOr(Counter(0, 0, 0)))
  {
    match OcrText(f, src, crop, engine)
    case Err(e) => Err(e)
    case Ok(Single(text)) => Ok(ParseCounter(text).GetOr(Counter(0, 0, 0)))
    case Ok(Many(texts)) =>
      if |texts| == 0 then Err(IndexError) else Ok(ParseCounter(texts[0]).GetOr(Counter(0, 0, 0)))
  }

  /** `Duration.after_process`: the model misreads `0` as `D`, so every `D` becomes `0`. */
  function DurationAfterProcess(lang: Lang, chars: seq<string>): (r: string)
    ensures |r| == |Join(chars)|
    ensures 'D' !in r
    ensures forall i :: 0 <= i < |r| ==>
      r[i] == if AfterProcess(lang, chars)[i] == 'D' then '0' else AfterProcess(lang, chars)[i]
  {
    Replace(AfterProcess(lang, chars), 'D', '0')
  }

  /**
    `Duration.ocr`: the seconds of each line's duration, with the same count, order and
    single-area unwrapping as the text it is parsed from.
  */
  function DurationOcr<Img, Area>(f: Field<Area>, src: Source<Img>, crop: (Img, Area) -> Img, engine: Engine<Img>): (r: Result<Output<nat>, OcrError>)
    ensures var raw, n := Recognised(f, src, crop, engine), |Areas(f.buttons)|;
      && (r.Err? <==> n == 1 && |raw| == 0)
      && (r.Err? ==> r.error == IndexError)
      && (r.Ok? ==> (r.value.Single? <==> n == 1))
      && (r.Ok? && r.value.Single? ==> r.value.value == TimePattern.ParseTime(DurationAfterProcess(f.lang, raw[0])))
      && (r.Ok? && r.value.Many? ==>
            |r.value.values| == |raw|
            && forall i :: 0 <= i < |raw| ==> r.value.values[i] == TimePattern.ParseTime(DurationAfterProcess(f.lang, raw[i])))
  {
    match Recognise(f, src, crop, engine, chars => Ok(DurationAfterProcess(f.lang, chars)))
    case Err(e) => Err(e)
    case Ok(out) =>
      var times := ParseTimes(if out.Single? then [out.value] else out.values);
      if |Areas(f.buttons)| == 1 then Ok(Single(times[0])) else Ok(Many(times))
  }

  /** The duration of each text, in order. */
  function ParseTimes(texts: seq<string>): (times: seq<nat>)
    ensures |times| == |texts|
    ensures forall i :: 0 <= i < |texts| ==> times[i] == TimePattern.ParseTime(texts[i])
  {
    seq(|texts|, i requires 0 <= i < |texts| => TimePattern.ParseTime(texts[i]))
  }

  /** A duration text without `D` or `鑑` is post-processed unchanged. */
  lemma DurationTextClean(lang: Lang, text: string)
    requires 'D' !in text && '鑑' !in text
    ensures DurationAfterProcess(lang, Chars(text)) == text
  {
    AfterProcessChars(lang, text);
    ReplaceAbsent(text, 'D', '0');
  }

  /** `01:30:00` is 5400 seconds. */
  lemma DurationExampleHours(lang: Lang)
    ensures TimePattern.ParseTime(DurationAfterProcess(lang, Chars("01:30:00"))) == 5400
  {
    DurationTextClean(lang, "01:30:00");
    TimePattern.ParseTimeExampleHours();
  }

  /** The misread `D` of `0D:05:10` is corrected to `00:05:10`. */
  lemma MisreadCorrected(lang: Lang)
    ensures DurationAfterProcess(lang, Chars("0D:05:10")) == "00:05:10"
  {
    AfterProcessChars(lang, "0D:05:10");
    ZeroForD();
  }

  lemma ZeroForD()
    ensures Replace("0D:05:10", 'D', '0') == "00:05:10"
  {
    var r := Replace("0D:05:10", 'D', '0');
    assert r[0] == '0' && r[1] == '0' && r[2] == ':' && r[3] == '0';
    assert r[4] == '5' && r[5] == ':' && r[6] == '1' && r[7] == '0';
  }

  /** `0D:05:10` is read as `00:05:10`, 310 seconds. */
  lemma DurationExampleMisread(lang: Lang)
    ensures TimePattern.ParseTime(DurationAfterProcess(lang, Chars("0D:05:10"))) == 310
  {
    MisreadCorrected(lang);
    TimePattern.ParseTimeExampleMinutes();
  }
}
