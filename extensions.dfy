/**
 * The media_extensions setting of the General section: a comma-separated
 * list of file-name suffixes, each piece stripped of surrounding whitespace.
 */
module Extensions {
  import opened Wrappers
  import opened Text
  import opened Config

  /** [ext.strip() for ext in setting.split(",")] */
  function ParseExtensions(setting: string): (exts: seq<string>)
    ensures |exts| == Count(setting, ',') + 1
    ensures forall i :: 0 <= i < |exts| ==> exts[i] == Strip(Split(setting, ',')[i])
    ensures forall i :: 0 <= i < |exts| ==> ',' !in exts[i] && Trimmed(exts[i])
  {
    var pieces := Split(setting, ',');
    seq(|pieces|, i requires 0 <= i < |pieces| => Strip(pieces[i]))
  }

  /** general["media_extensions"], parsed; None stands for the KeyError raised
      when the General section has no such key. */
  function MediaExtensions(general: Section): (r: Option<seq<string>>)
    ensures r.None? <==> forall i :: 0 <= i < |general| ==> general[i].0 != "media_extensions"
    ensures r.Some? ==> exists setting :: ("media_extensions", setting) in general && r.value == ParseExtensions(setting)
  {
    match Lookup(general, "media_extensions")
    case None => None
    case Some(setting) => Some(ParseExtensions(setting))
  }

  /** Entry i is the i-th comma-separated piece of the setting, with only
      whitespace taken off its two ends. */
  lemma ParseExtensionsPieces(setting: string, i: nat)
    requires i < Count(setting, ',') + 1
    ensures exists a, b :: PaddedBy(Split(setting, ',')[i], ParseExtensions(setting)[i], a, b)
  {
    var piece := Split(setting, ',')[i];
    StripDecomposes(piece);
    var a, b :| PaddedBy(piece, Strip(piece), a, b);
    assert PaddedBy(piece, ParseExtensions(setting)[i], a, b);
  }

  /** Writing a list out comma-separated and parsing it gives the list back,
      provided its entries hold no comma and no surrounding whitespace. */
  lemma ParseExtensionsRoundTrip(exts: seq<string>)
    requires |exts| >= 1
    requires forall i :: 0 <= i < |exts| ==> ',' !in exts[i] && Trimmed(exts[i])
    ensures ParseExtensions(Join(exts, ",")) == exts
  {
    SplitJoin(exts, ',');
    assert Split(Join(exts, ","), ',') == exts;
    forall i | 0 <= i < |exts|
      ensures Strip(exts[i]) == exts[i]
    {
      assert exts[i] == "" + exts[i] + "";
      StripPadded(exts[i], exts[i], "", "");
    }
  }

  /** The pieces of s + [sep] are those of s, then one empty piece */
  lemma {:induction false} SplitTrailingSeparator(s: string, sep: char)
    ensures Split(s + [sep], sep) == Split(s, sep) + [""]
  {
    if s == [] {
      assert Split([sep], sep) == [""] + Split([], sep);
    } else {
      assert (s + [sep])[1..] == s[1..] + [sep];
      SplitTrailingSeparator(s[1..], sep);
      var rest := Split(s[1..], sep);
      if s[0] != sep {
        assert (rest + [""])[0] == rest[0] && (rest + [""])[1..] == rest[1..] + [""];
      }
    }
  }

  /** A setting that ends with a comma yields an empty extension last */
  lemma TrailingCommaGivesEmptyExtension(setting: string)
    ensures var exts := ParseExtensions(setting + ",");
            exts[|exts| - 1] == ""
  {
    SplitTrailingSeparator(setting, ',');
  }

  /** An empty or blank setting yields the one extension "" */
  lemma BlankSettingGivesEmptyExtension(setting: string)
    requires AllSpace(setting)
    ensures ParseExtensions(setting) == [""]
  {
    assert ',' !in setting by {
      assert !IsSpace(',');
    }
    assert "" + [] + setting == setting;
    NoSeparatorOnePiece(setting, ',');
    StripPadded(setting, "", "", setting);
  }

  lemma NoSeparatorOnePiece(s: string, sep: char)
    requires sep !in s
    ensures Split(s, sep) == [s]
  {
    SplitJoin([s], sep);
  }
}
