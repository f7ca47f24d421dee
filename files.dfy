/** File names: the suffix and stem of a name as `pathlib.PurePath` splits
    it, the `.ppt` test that decides whether a deck is converted first, and
    the name the translated file is saved under. */
module FileNames {
  import opened PyStr

  /** Where the suffix of `name` starts: at its last '.', unless that dot
      is the first or the last character (".bashrc", "deck."), in which
      case the name has no suffix and the index is `|name|`. */
  function SuffixStart(name: string): (i: nat)
    ensures i <= |name|
    ensures i < |name| ==> 0 < i < |name| - 1 && name[i] == '.' && Lacks(name[i + 1..], '.')
    ensures i == |name| ==> (|name| > 0 && name[|name| - 1] == '.') || forall j :: 0 < j < |name| ==> name[j] != '.'
  {
    var d := RFind(name, '.');
    if 0 < d < |name| - 1 then d else |name|
  }

  /** `PurePath(name).suffix`: a tail of the name. */
  function Suffix(name: string): (suffix: string)
    ensures |suffix| <= |name| && suffix == name[|name| - |suffix|..]
  {
    name[SuffixStart(name)..]
  }

  /** `PurePath(name).with_suffix("").name`, the stem: a head of the
      name. */
  function Stem(name: string): (stem: string)
    ensures |stem| <= |name| && stem == name[..|stem|]
  {
    name[..SuffixStart(name)]
  }

  /** A name is its stem followed by its suffix; a suffix is empty or a
      '.' followed by at least one character and no further '.', and a
      name with a suffix has a non-empty stem. */
  lemma {:induction false} StemSuffix(name: string)
    ensures Stem(name) + Suffix(name) == name
    ensures Suffix(name) == [] || (|Suffix(name)| >= 2 && Suffix(name)[0] == '.' && Lacks(Suffix(name)[1..], '.'))
    ensures Suffix(name) != [] ==> Stem(name) != []
  {
    var i := SuffixStart(name);
    assert name == name[..i] + name[i..];
    if i < |name| {
      assert Suffix(name)[1..] == name[i + 1..];
    }
  }

  /** Adding a dot-free extension to a non-empty stem is undone by `Stem`
      and `Suffix`. */
  lemma {:induction false} StemOfExtended(stem: string, ext: string)
    requires stem != [] && ext != [] && Lacks(ext, '.')
    ensures Stem(stem + "." + ext) == stem
    ensures Suffix(stem + "." + ext) == "." + ext
  {
    var name := stem + "." + ext;
    var d := RFind(name, '.');
    assert name[|stem|] == '.';
    forall j | |stem| < j < |name|
      ensures name[j] != '.'
    {
      assert name[j] == ext[j - |stem| - 1];
    }
    assert d == |stem|;
    assert name[..|stem|] == stem;
    assert name[|stem|..] == "." + ext;
  }

  /** A name with no '.' after its first character has no suffix. */
  lemma {:induction false} NoSuffix(name: string)
    requires forall j :: 0 < j < |name| ==> name[j] != '.'
    ensures Stem(name) == name && Suffix(name) == []
  {
  }

  /** `in_path.suffix.lower() == ".ppt"`: the deck is in the legacy format
      and is converted before it is read. */
  predicate IsLegacyPpt(name: string)
  {
    Lower(Suffix(name)) == ".ppt"
  }

  /** For every name, the legacy test holds exactly when the name ends with
      '.' and three characters that lower to "ppt", and that '.' is not
      the name's first character. */
  lemma {:induction false} LegacyPptIff(name: string)
    ensures IsLegacyPpt(name) <==>
      |name| >= 5 && name[|name| - 4] == '.' && Lower(name[|name| - 3..]) == "ppt"
  {
    var n := |name|;
    var i := SuffixStart(name);
    if IsLegacyPpt(name) {
      assert |Suffix(name)| == 4;
      assert i == n - 4;
      assert name[n - 3..] == Suffix(name)[1..];
      forall t | 0 <= t < 3
        ensures Lower(name[n - 3..])[t] == "ppt"[t]
      {
        assert Lower(name[n - 3..])[t] == Lower(Suffix(name))[t + 1];
      }
    }
    if n >= 5 && name[n - 4] == '.' && Lower(name[n - 3..]) == "ppt" {
      forall j | n - 4 < j < n
        ensures name[j] != '.'
      {
        assert LowerChar(name[j]) == Lower(name[n - 3..])[j - (n - 3)];
      }
      var d := RFind(name, '.');
      assert d == n - 4;
      assert i == n - 4;
      forall t | 0 <= t < 4
        ensures Lower(Suffix(name))[t] == ".ppt"[t]
      {
        if t > 0 {
          assert Lower(Suffix(name))[t] == Lower(name[n - 3..])[t - 1];
        }
      }
    }
  }

  /** The legacy test ignores case: it holds for ".ppt" and ".PPT". */
  lemma {:induction false} LegacyPptAnyCase()
    ensures IsLegacyPpt("cours.ppt")
    ensures IsLegacyPpt("TP.PPT")
  {
    assert "cours.ppt" == "cours" + "." + "ppt";
    StemOfExtended("cours", "ppt");
    assert Lower(".ppt") == ".ppt";
    assert "TP.PPT" == "TP" + "." + "PPT";
    StemOfExtended("TP", "PPT");
    assert Lower(".PPT") == ".ppt";
  }

  /** The legacy test fails for the newer format and for names whose only
      "ppt" is not a suffix. */
  lemma {:induction false} LegacyPptRejects()
    ensures !IsLegacyPpt("cours.pptx")
    ensures !IsLegacyPpt(".ppt")
  {
    assert "cours.pptx" == "cours" + "." + "pptx";
    StemOfExtended("cours", "pptx");
    assert |Lower(".pptx")| == 5;
    NoSuffix(".ppt");
  }

  /** `f"{Path(name).with_suffix('')}_EN.{ext}"`: the stem of the uploaded
      (or converted) file, then `_EN.` and the extension, "pptx" for a deck
      and "ipynb" for a notebook. */
  function OutputName(name: string, ext: string): (out: string)
    ensures EndsWith(out, "_EN." + ext)
    ensures |out| == |Stem(name)| + 4 + |ext|
  {
    Stem(name) + "_EN." + ext
  }

  /** The output name has the given extension as its suffix, and its stem
      is the input's stem followed by `_EN`. */
  lemma {:induction false} OutputNameParts(name: string, ext: string)
    requires ext != [] && Lacks(ext, '.')
    ensures Suffix(OutputName(name, ext)) == "." + ext
    ensures Stem(OutputName(name, ext)) == Stem(name) + "_EN"
  {
    assert OutputName(name, ext) == (Stem(name) + "_EN") + "." + ext;
    StemOfExtended(Stem(name) + "_EN", ext);
  }

  /** The extension of the input is replaced, and only the last one. */
  lemma {:induction false} OutputNameReplaces()
    ensures OutputName("tp.v2.ipynb", "ipynb") == "tp.v2_EN.ipynb"
  {
    assert "tp.v2.ipynb" == "tp.v2" + "." + "ipynb";
    StemOfExtended("tp.v2", "ipynb");
    assert "tp.v2" + "_EN." + "ipynb" == "tp.v2_EN.ipynb";
  }

  /** A name whose only dot comes first has no suffix to drop. */
  lemma {:induction false} OutputNameDotFirst()
    ensures OutputName(".pptx", "pptx") == ".pptx_EN.pptx"
  {
    NoSuffix(".pptx");
  }
}
