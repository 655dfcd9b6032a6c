/**
  The four `get_zone_name` variants of module/os/map_operation.py: the per-server clean-up
  that turns the recognised map name into the name zones are looked up by. The server
  setting the source dispatches on becomes an explicit `Locale`.
*/
module MapOperation {
  import opened Results
  import opened Strings
  import Ocr

  /** The SERVER setting; `Cn` is the default variant (SERVER=None). */
  datatype Locale = En | Jp | Tw | Cn

  /** `string.whitespace`. */
  const Whitespace: string := " \t\n\r\U{000B}\U{000C}"

  /** The `rstrip` arguments: sets of characters, written as the source writes them. */
  const JpSuffix: string := "安全海域秘密海域"
  const TwSuffix: string := "安全海域隱秘海域一"
  const CnSuffix: string := "安全海域-"

  /** The recognition model each server reads the map name with. */
  function MapNameLang(locale: Locale): Ocr.Lang {
    match locale
    case En => Ocr.Cnocr
    case Jp => Ocr.Jp
    case Tw => Ocr.Tw
    case Cn => Ocr.Cnocr
  }

  /** The EN name before its corrections: whitespace removed, lower-cased, cut at the first `-`. */
  function EnTruncated(text: string): string {
    var lowered := Lower(Delete(text, Whitespace));
    if '-' in lowered then BeforeFirst(lowered, '-') else lowered
  }

  lemma LowerKeepsNonWhitespace(c: char)
    requires c !in Whitespace
    ensures LowerChar(c) !in Whitespace
  {
  }

  /** The truncated EN name has no whitespace, no upper case and no `-`. */
  lemma EnTruncatedClean(text: string)
    ensures forall i :: 0 <= i < |EnTruncated(text)| ==>
      var c := EnTruncated(text)[i]; c !in Whitespace && !IsAsciiUpper(c) && c != 'É' && c != '-'
  {
    var deleted := Delete(text, Whitespace);
    var lowered := Lower(deleted);
    forall i | 0 <= i < |lowered|
      ensures lowered[i] !in Whitespace
    {
      LowerKeepsNonWhitespace(deleted[i]);
    }
  }

  lemma NycityHasNoNvcity()
    ensures !Contains("nycity", "nvcity")
  {
    forall i | 0 <= i <= 6
      ensures !("nvcity" <= "nycity"[i..])
    {
      if i == 0 {
        assert "nycity"[1] != "nvcity"[1];
      }
    }
  }

  /** The EN name after `é` is read as `e`. */
  function EnPlain(text: string): string {
    var cut := EnTruncated(text);
    if 'é' in cut then Replace(cut, 'é', 'e') else cut
  }

  lemma EnPlainIsReplace(text: string)
    ensures EnPlain(text) == Replace(EnTruncated(text), 'é', 'e')
  {
    var cut := EnTruncated(text);
    if 'é' !in cut {
      ReplaceAbsent(cut, 'é', 'e');
    }
  }

  /** The EN name before the `nvcity` check is clean. */
  lemma EnPlainClean(text: string)
    ensures forall i :: 0 <= i < |EnPlain(text)| ==> var c := EnPlain(text)[i];
      c !in Whitespace && !IsAsciiUpper(c) && c != 'É' && c != '-' && c != 'é'
  {
    var cut := EnTruncated(text);
    var plain := EnPlain(text);
    EnPlainIsReplace(text);
    EnTruncatedClean(text);
    forall i | 0 <= i < |plain|
      ensures plain[i] !in Whitespace && !IsAsciiUpper(plain[i]) && plain[i] != 'É' && plain[i] != '-' && plain[i] != 'é'
    {
      assert plain[i] == if cut[i] == 'é' then 'e' else cut[i];
    }
  }

  /** The `é` correction neither creates nor destroys an `nvcity`. */
  lemma EnPlainNvcity(text: string)
    ensures Contains(EnPlain(text), "nvcity") <==> Contains(EnTruncated(text), "nvcity")
  {
    EnPlainIsReplace(text);
    ReplaceKeepsContains(EnTruncated(text), 'é', 'e', "nvcity");
  }

  /** `nycity` is itself a clean EN name. */
  lemma NycityClean()
    ensures forall i :: 0 <= i < |"nycity"| ==> var c := "nycity"[i];
      c !in Whitespace && !IsAsciiUpper(c) && c != 'É' && c != '-' && c != 'é'
    ensures !Contains("nycity", "nvcity")
  {
    NycityHasNoNvcity();
  }

  /**
    EN `get_zone_name`: no whitespace, lower case, the part before the first `-`, `é`
    read as `e`; a name mentioning `nvcity` (NY City misread) becomes `nycity` outright.
  */
  function EnZoneName(text: string): (name: string)
    ensures forall i :: 0 <= i < |name| ==>
      name[i] !in Whitespace && !IsAsciiUpper(name[i]) && name[i] != 'É' && name[i] != '-' && name[i] != 'é'
    ensures Contains(EnTruncated(text), "nvcity") ==> name == "nycity"
    ensures !Contains(EnTruncated(text), "nvcity") ==> name == Replace(EnTruncated(text), 'é', 'e')
    ensures !Contains(name, "nvcity")
  {
    EnPlainIsReplace(text);
    EnPlainClean(text);
    EnPlainNvcity(text);
    NycityClean();
    if Contains(EnPlain(text), "nvcity") then "nycity" else EnPlain(text)
  }

  /** Normalising an EN name that is already normalised changes nothing. */
  lemma EnIdempotent(text: string)
    ensures EnZoneName(EnZoneName(text)) == EnZoneName(text)
  {
    var name := EnZoneName(text);
    DeleteAbsent(name, Whitespace);
    LowerIdle(name);
    assert EnTruncated(name) == name;
    ReplaceAbsent(name, 'é', 'e');
  }

  /** EN normalisation never lengthens the name, not even when it substitutes `nycity`. */
  lemma EnNoLonger(text: string)
    ensures |EnZoneName(text)| <= |text|
  {
    if Contains(EnTruncated(text), "nvcity") {
      ContainsLength(EnTruncated(text), "nvcity");
    }
  }

  lemma LowerNvcity()
    ensures Lower("NVCITY") == "nvcity"
  {
    var r := Lower("NVCITY");
    assert r[0] == 'n' && r[1] == 'v' && r[2] == 'c' && r[3] == 'i' && r[4] == 't' && r[5] == 'y';
  }

  lemma NvcityNoWhitespace()
    ensures forall i :: 0 <= i < |"NVCITY"| ==> "NVCITY"[i] !in Whitespace
  {
  }

  lemma NvcityHasNoDash()
    ensures '-' !in "nvcity"
  {
    assert forall i :: 0 <= i < |"nvcity"| ==> "nvcity"[i] != '-';
  }

  lemma DeleteNvcity()
    ensures Delete("NVCITY", Whitespace) == "NVCITY"
  {
    NvcityNoWhitespace();
    DeleteAbsent("NVCITY", Whitespace);
  }

  lemma TruncatedNvcity()
    ensures EnTruncated("NVCITY") == "nvcity"
  {
    DeleteNvcity();
    LowerNvcity();
    NvcityHasNoDash();
    assert Lower(Delete("NVCITY", Whitespace)) == "nvcity";
  }

  /** `NVCITY` normalises to `nycity`. */
  lemma EnExample()
    ensures EnZoneName("NVCITY") == "nycity"
  {
    TruncatedNvcity();
    assert "nvcity" <= "nvcity"[0..];
  }

  /** The three JP misread corrections: Kanji `一` and `力` to Katakana, Hiragana `ぺ` to Katakana. */
  function JpFix(c: char): char {
    if c == '一' then 'ー' else if c == '力' then 'カ' else if c == 'ぺ' then 'ペ' else c
  }

  /**
    JP `get_zone_name`: trailing characters of `安全海域秘密海域` stripped (as a character set),
    then the misreads corrected character by character.
  */
  function JpZoneName(text: string): (name: string)
    ensures |name| <= |text|
    ensures forall i :: 0 <= i < |name| ==> name[i] == JpFix(text[i])
    ensures forall i :: |name| <= i < |text| ==> text[i] in JpSuffix
    ensures |name| == 0 || text[|name| - 1] !in JpSuffix
    ensures '一' !in name && '力' !in name && 'ぺ' !in name
  {
    JpFixAll(Rstrip(text, JpSuffix))
  }

  /** The three one-character corrections, applied in the order the source applies them. */
  function JpFixAll(s: string): (r: string)
    ensures |r| == |s|
    ensures forall i :: 0 <= i < |s| ==> r[i] == JpFix(s[i])
    ensures '一' !in r && '力' !in r && 'ぺ' !in r
  {
    Replace(Replace(Replace(s, '一', 'ー'), '力', 'カ'), 'ぺ', 'ペ')
  }

  /** A correction never turns a kept character into one `rstrip` would remove. */
  lemma JpFixOutside(c: char)
    requires c !in JpSuffix
    ensures JpFix(c) !in JpSuffix
  {
  }

  /** Normalising a JP name that is already normalised changes nothing. */
  lemma JpIdempotent(text: string)
    ensures JpZoneName(JpZoneName(text)) == JpZoneName(text)
  {
    var name := JpZoneName(text);
    if |name| > 0 {
      JpFixOutside(text[|name| - 1]);
    }
    RstripUnique(name, JpSuffix, name);
    ReplaceAbsent(name, '一', 'ー');
    ReplaceAbsent(name, '力', 'カ');
    ReplaceAbsent(name, 'ぺ', 'ペ');
  }

  /** TW `get_zone_name`: trailing characters of `安全海域隱秘海域一` stripped (as a character set). */
  function TwZoneName(text: string): (name: string)
    ensures name <= text
    ensures forall i :: |name| <= i < |text| ==> text[i] in TwSuffix
    ensures |name| == 0 || name[|name| - 1] !in TwSuffix
  {
    Rstrip(text, TwSuffix)
  }

  /** Normalising a TW name that is already normalised changes nothing. */
  lemma TwIdempotent(text: string)
    ensures TwZoneName(TwZoneName(text)) == TwZoneName(text)
  {
    RstripIdempotent(text, TwSuffix);
  }

  /** A TW map name read by the tw model never contains `鑑`. */
  lemma TwNameHasNoKan(chars: seq<string>)
    ensures '鑑' !in TwZoneName(Ocr.AfterProcess(Ocr.Tw, chars))
  {
    var text := Ocr.AfterProcess(Ocr.Tw, chars);
    var name := TwZoneName(text);
    assert forall i :: 0 <= i < |name| ==> name[i] == text[i];
  }

  /**
    Default (CN) `get_zone_name`: the part before the first `-` when there is one;
    otherwise trailing characters of `安全海域-` stripped (as a character set).
  */
  function CnZoneName(text: string): (name: string)
    ensures '-' in text ==> name <= text && |name| < |text| && text[|name|] == '-' && '-' !in name
    ensures '-' !in text ==> name <= text
    ensures '-' !in text ==> forall i :: |name| <= i < |text| ==> text[i] in CnSuffix
    ensures '-' !in text ==> |name| == 0 || name[|name| - 1] !in CnSuffix
  {
    if '-' in text then BeforeFirst(text, '-') else Rstrip(text, CnSuffix)
  }

  /** A name with a dash keeps exactly what comes before the first dash, `abc-123` giving `abc`. */
  lemma CnCut(head: string, tail: string)
    requires '-' !in head
    ensures CnZoneName(head + "-" + tail) == head
  {
    var text := head + "-" + tail;
    assert text[|head|] == '-' && text[..|head|] == head;
    BeforeFirstAt(text, '-', |head|);
  }

  /**
    `rstrip` removes characters, not a suffix: the `海` of a name ending in it goes with
    `安全海域`.
  */
  lemma CnStripsCharacters()
    ensures CnZoneName("深海安全海域") == "深"
  {
    assert '-' !in "深海安全海域";
    RstripUnique("深海安全海域", CnSuffix, "深");
  }

  /**
    Cutting at `-` can expose strippable characters, so the CN variant is not
    idempotent: `深海-1` gives `深海`, which gives `深`.
  */
  lemma CnNotIdempotent(head: string, tail: string)
    requires '-' !in head && |head| > 0 && head[|head| - 1] in CnSuffix
    ensures CnZoneName(head + "-" + tail) == head
    ensures CnZoneName(CnZoneName(head + "-" + tail)) != head
  {
    CnCut(head, tail);
  }

  /** `get_zone_name` for the given server. */
  function ZoneName(locale: Locale, text: string): (name: string)
    ensures |name| <= |text|
  {
    match locale
    case En =>
      EnNoLonger(text);
      EnZoneName(text)
    case Jp => JpZoneName(text)
    case Tw => TwZoneName(text)
    case Cn => CnZoneName(text)
  }

  /**
    `get_zone_name` from the screen: the map-name area read with the server's model and
    no alphabet restriction, post-processed, then normalised.
  */
  function GetZoneName<Img, Area>(locale: Locale, mapName: Area, image: Img,
                                  crop: (Img, Area) -> Img, engine: Ocr.Engine<Img>): (name: string)
    ensures var lang := MapNameLang(locale);
      name == ZoneName(locale, Ocr.AfterProcess(lang, engine(lang, None, crop(image, mapName))))
    ensures locale == Tw ==> '鑑' !in name
  {
    var field := Ocr.Field(Ocr.One(mapName), MapNameLang(locale), None);
    var text := Ocr.OcrText(field, Ocr.Screen(image), crop, engine);
    TwNameHasNoKan(engine(Ocr.Tw, None, crop(image, mapName)));
    ZoneName(locale, text.value.value)
  }
}
