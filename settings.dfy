/** The user's language and answer-mode choices: which answer modes are switched on, the
    language tag sent with a question, and the locale handed to speech recognition. */
module Settings {
  import opened Text

  // ---- Answer modes ----

  /** `toggleMode`: the mode's switch is flipped; a mode without a switch yet counts as off and
      so becomes on. No other switch changes. */
  function ToggleMode(modes: map<string, bool>, key: string): (r: map<string, bool>)
    ensures r.Keys == modes.Keys + {key}
    ensures r[key] <==> !(key in modes && modes[key])
    ensures forall k | k in modes && k != key :: r[k] == modes[k]
  {
    modes[key := !(key in modes && modes[key])]
  }

  /** Toggling a mode twice restores the switches, once the mode has a switch. */
  lemma ToggleTwice(modes: map<string, bool>, key: string)
    requires key in modes
    ensures ToggleMode(ToggleMode(modes, key), key) == modes
  {
  }

  /** Toggling two different modes gives the same switches in either order. */
  lemma ToggleCommutes(modes: map<string, bool>, a: string, b: string)
    requires a != b
    ensures ToggleMode(ToggleMode(modes, a), b) == ToggleMode(ToggleMode(modes, b), a)
  {
  }

  // ---- Language of a question ----

  const CasualSuffix := "_casual"

  /** The languages whose entry in the language table names a casual (romanised) variant; the
      others (English, Hinglish and the international languages) have `casual: false`. */
  const CasualLanguages: set<string> := {
    "hi", "ur", "ta", "ml", "bn", "pa", "gu", "kn", "te", "or", "as", "ne", "mr", "sa", "sd",
    "ks", "doi", "mni", "sat", "mai", "kok", "bho", "bod", "raj"
  }

  /** The language tag sent with a question: the selected language, with `_casual` appended
      when casual mode is on and the language has a casual variant. */
  function EffectiveLanguage(selected: string, casual: bool): (r: string)
    ensures |r| >= |selected| && r[..|selected|] == selected
    ensures r != selected <==> casual && selected in CasualLanguages
    ensures r != selected ==> r[|selected|..] == CasualSuffix
  {
    if casual && selected in CasualLanguages then selected + CasualSuffix
    else selected
  }

  /** The selected language is recovered from the tag by dropping the casual suffix, when the
      language's own name does not end in it. */
  function BaseLanguage(tag: string): (r: string)
    ensures |r| <= |tag| && tag[..|r|] == r
  {
    if |tag| >= |CasualSuffix| && tag[|tag| - |CasualSuffix|..] == CasualSuffix
    then tag[..|tag| - |CasualSuffix|]
    else tag
  }

  lemma BaseOfEffective(selected: string, casual: bool)
    requires !(|selected| >= |CasualSuffix| && selected[|selected| - |CasualSuffix|..] == CasualSuffix)
    ensures BaseLanguage(EffectiveLanguage(selected, casual)) == selected
  {
    var r := EffectiveLanguage(selected, casual);
    if r != selected {
      assert r == selected + CasualSuffix;
      assert r[|r| - |CasualSuffix|..] == CasualSuffix;
      assert r[..|r| - |CasualSuffix|] == selected;
    }
  }

  // ---- Speech recognition locale ----

  /** The locales speech recognition is given for the languages the application names. */
  const RecognitionLocales: map<string, string> := map[
    "en" := "en-US", "hi" := "hi-IN", "bn" := "bn-IN", "ta" := "ta-IN", "te" := "te-IN",
    "ml" := "ml-IN", "kn" := "kn-IN", "gu" := "gu-IN", "pa" := "pa-IN", "or" := "or-IN",
    "as" := "as-IN", "mr" := "mr-IN", "ne" := "ne-NP", "sa" := "sa-IN", "ur" := "ur-PK",
    "sd" := "sd-PK", "ks" := "ks-IN", "doi" := "doi-IN", "mni" := "mni-IN", "sat" := "sat-IN",
    "mai" := "mai-IN", "kok" := "kok-IN", "bho" := "bho-IN", "bod" := "bod-IN", "raj" := "hi-IN",
    "hinglish" := "hi-IN"]

  /** The locale for a language: its entry in the table, or else the language code, a dash and
      the code in capitals. */
  function RecognitionLocale(selected: string): (r: string)
  {
    if selected in RecognitionLocales then RecognitionLocales[selected]
    else selected + "-" + Upper(selected)
  }

  // The table's entries, a quarter at a time.
  lemma NamedLocalesA()
    ensures "en" in RecognitionLocales && RecognitionLocales["en"] == "en-US"
    ensures "hi" in RecognitionLocales && RecognitionLocales["hi"] == "hi-IN"
    ensures "bn" in RecognitionLocales && RecognitionLocales["bn"] == "bn-IN"
    ensures "ta" in RecognitionLocales && RecognitionLocales["ta"] == "ta-IN"
    ensures "te" in RecognitionLocales && RecognitionLocales["te"] == "te-IN"
    ensures "ml" in RecognitionLocales && RecognitionLocales["ml"] == "ml-IN"
    ensures "kn" in RecognitionLocales && RecognitionLocales["kn"] == "kn-IN"
  {
  }

  lemma NamedLocalesB()
    ensures "gu" in RecognitionLocales && RecognitionLocales["gu"] == "gu-IN"
    ensures "pa" in RecognitionLocales && RecognitionLocales["pa"] == "pa-IN"
    ensures "or" in RecognitionLocales && RecognitionLocales["or"] == "or-IN"
    ensures "as" in RecognitionLocales && RecognitionLocales["as"] == "as-IN"
    ensures "mr" in RecognitionLocales && RecognitionLocales["mr"] == "mr-IN"
    ensures "ne" in RecognitionLocales && RecognitionLocales["ne"] == "ne-NP"
    ensures "sa" in RecognitionLocales && RecognitionLocales["sa"] == "sa-IN"
  {
  }

  lemma NamedLocalesC()
    ensures "ur" in RecognitionLocales && RecognitionLocales["ur"] == "ur-PK"
    ensures "sd" in RecognitionLocales && RecognitionLocales["sd"] == "sd-PK"
    ensures "ks" in RecognitionLocales && RecognitionLocales["ks"] == "ks-IN"
    ensures "doi" in RecognitionLocales && RecognitionLocales["doi"] == "doi-IN"
    ensures "mni" in RecognitionLocales && RecognitionLocales["mni"] == "mni-IN"
    ensures "sat" in RecognitionLocales && RecognitionLocales["sat"] == "sat-IN"
  {
  }

  lemma NamedLocalesD()
    ensures "mai" in RecognitionLocales && RecognitionLocales["mai"] == "mai-IN"
    ensures "kok" in RecognitionLocales && RecognitionLocales["kok"] == "kok-IN"
    ensures "bho" in RecognitionLocales && RecognitionLocales["bho"] == "bho-IN"
    ensures "bod" in RecognitionLocales && RecognitionLocales["bod"] == "bod-IN"
    ensures "raj" in RecognitionLocales && RecognitionLocales["raj"] == "hi-IN"
    ensures "hinglish" in RecognitionLocales && RecognitionLocales["hinglish"] == "hi-IN"
  {
  }

  /** A code unlike every named one is not in the table. */
  lemma UnnamedLocale(selected: string)
    requires selected != "en"
    requires selected != "hi"
    requires selected != "bn"
    requires selected != "ta"
    requires selected != "te"
    requires selected != "ml"
    requires selected != "kn"
    requires selected != "gu"
    requires selected != "pa"
    requires selected != "or"
    requires selected != "as"
    requires selected != "mr"
    requires selected != "ne"
    requires selected != "sa"
    requires selected != "ur"
    requires selected != "sd"
    requires selected != "ks"
    requires selected != "doi"
    requires selected != "mni"
    requires selected != "sat"
    requires selected != "mai"
    requires selected != "kok"
    requires selected != "bho"
    requires selected != "bod"
    requires selected != "raj"
    requires selected != "hinglish"
    ensures selected !in RecognitionLocales
  {
  }

  /** The recognition locale chosen by the voice input handler, one language at a time. Casual
      mode does not change it. */
  method RecognitionLanguage(selected: string, casual: bool) returns (lang: string)
    ensures lang == RecognitionLocale(selected)
  {
    NamedLocalesA();
    NamedLocalesB();
    NamedLocalesC();
    NamedLocalesD();
    lang := "en-US";
    if selected == "en" {
      lang := "en-US";
    } else if selected == "hi" {
      lang := if casual then "hi-IN" else "hi-IN";
    } else if selected == "bn" {
      lang := "bn-IN";
    } else if selected == "ta" {
      lang := "ta-IN";
    } else if selected == "te" {
      lang := "te-IN";
    } else if selected == "ml" {
      lang := "ml-IN";
    } else if selected == "kn" {
      lang := "kn-IN";
    } else if selected == "gu" {
      lang := "gu-IN";
    } else if selected == "pa" {
      lang := "pa-IN";
    } else if selected == "or" {
      lang := "or-IN";
    } else if selected == "as" {
      lang := "as-IN";
    } else if selected == "mr" {
      lang := "mr-IN";
    } else if selected == "ne" {
      lang := "ne-NP";
    } else if selected == "sa" {
      lang := "sa-IN";
    } else if selected == "ur" {
      lang := "ur-PK";
    } else if selected == "sd" {
      lang := "sd-PK";
    } else if selected == "ks" {
      lang := "ks-IN";
    } else if selected == "doi" {
      lang := "doi-IN";
    } else if selected == "mni" {
      lang := "mni-IN";
    } else if selected == "sat" {
      lang := "sat-IN";
    } else if selected == "mai" {
      lang := "mai-IN";
    } else if selected == "kok" {
      lang := "kok-IN";
    } else if selected == "bho" {
      lang := "bho-IN";
    } else if selected == "bod" {
      lang := "bod-IN";
    } else if selected == "raj" {
      lang := "hi-IN";
    } else if selected == "hinglish" {
      lang := "hi-IN";
    } else {
      UnnamedLocale(selected);
      lang := selected + "-" + Upper(selected);
    }
  }

  /** Languages recognised as Hindi although they have codes of their own. */
  const HindiAliases: set<string> := {"raj", "hinglish"}

  /** Every language but Rajasthani and Hinglish is recognised under its own code followed by a
      dash and a region; those two are recognised as Hindi. */
  lemma LocaleKeepsCode(selected: string)
    ensures selected in HindiAliases ==> RecognitionLocale(selected) == "hi-IN"
    ensures selected !in HindiAliases ==>
      var r := RecognitionLocale(selected);
      |r| >= |selected| + 1 && r[..|selected| + 1] == selected + "-"
  {
    NamedLocalesD();
    if selected !in HindiAliases && selected in RecognitionLocales {
      NamedCodes(selected);
      if selected in {"en", "hi", "bn", "ta", "te", "ml", "kn"} { KeepsCodeA(selected); }
      else if selected in {"gu", "pa", "or", "as", "mr", "ne", "sa"} { KeepsCodeB(selected); }
      else if selected in {"ur", "sd", "ks", "doi", "mni", "sat"} { KeepsCodeC(selected); }
      else { KeepsCodeD(selected); }
    }
  }

  lemma KeepsCodeA(selected: string)
    requires selected in {"en", "hi", "bn", "ta", "te", "ml", "kn"}
    ensures var r := RecognitionLocale(selected); |r| >= |selected| + 1 && r[..|selected| + 1] == selected + "-"
  {
    NamedLocalesA();
  }

  lemma KeepsCodeB(selected: string)
    requires selected in {"gu", "pa", "or", "as", "mr", "ne", "sa"}
    ensures var r := RecognitionLocale(selected); |r| >= |selected| + 1 && r[..|selected| + 1] == selected + "-"
  {
    NamedLocalesB();
  }

  lemma KeepsCodeC(selected: string)
    requires selected in {"ur", "sd", "ks", "doi", "mni", "sat"}
    ensures var r := RecognitionLocale(selected); |r| >= |selected| + 1 && r[..|selected| + 1] == selected + "-"
  {
    NamedLocalesC();
  }

  lemma KeepsCodeD(selected: string)
    requires selected in {"mai", "kok", "bho", "bod"}
    ensures var r := RecognitionLocale(selected); |r| >= |selected| + 1 && r[..|selected| + 1] == selected + "-"
  {
    NamedLocalesD();
  }

  /** The named codes other than the Hindi aliases, a quarter at a time. */
  lemma NamedCodes(selected: string)
    requires selected in RecognitionLocales && selected !in HindiAliases
    ensures selected in {"en", "hi", "bn", "ta", "te", "ml", "kn"}
         || selected in {"gu", "pa", "or", "as", "mr", "ne", "sa"}
         || selected in {"ur", "sd", "ks", "doi", "mni", "sat"}
         || selected in {"mai", "kok", "bho", "bod"}
  {
  }

  /** A language the table does not name gets its code, a dash and the code in capitals. */
  lemma LocaleOfUnnamed(selected: string)
    requires selected !in RecognitionLocales
    ensures |RecognitionLocale(selected)| == 2 * |selected| + 1
    ensures RecognitionLocale(selected)[..|selected|] == selected
    ensures RecognitionLocale(selected)[|selected|] == '-'
    ensures forall i | 0 <= i < |selected| ::
      RecognitionLocale(selected)[|selected| + 1 + i] == UpperChar(selected[i])
  {
  }
}
