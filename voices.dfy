/** The choice of a speech-synthesis voice for reading an answer aloud: the languages to look
    for, the voices that speak each of them, five tiers of preference, and a preference for
    female voices in beginner mode and male voices in mastery mode. */
module Voices {
  import opened Text

  /** A voice as the browser lists it. */
  datatype Voice = Voice(name: string, lang: string, localService: bool)

  /** The locales tried for each language that names its own, in order. */
  const VoiceLanguageMap: map<string, seq<string>> := map[
    "en" := ["en-US", "en-GB", "en-AU", "en-CA", "en-IN", "en-NZ", "en-ZA"],
    "hi" := ["hi-IN", "hi"],
    "ur" := ["ur-PK", "ur-IN", "ur"],
    "ta" := ["ta-IN", "ta-LK", "ta-SG", "ta"],
    "ml" := ["ml-IN", "ml"],
    "bn" := ["bn-IN", "bn-BD", "bn"],
    "pa" := ["pa-IN", "pa-PK", "pa"],
    "gu" := ["gu-IN", "gu"],
    "kn" := ["kn-IN", "kn"],
    "te" := ["te-IN", "te"],
    "or" := ["or-IN", "or"],
    "as" := ["as-IN", "as"],
    "ne" := ["ne-NP", "ne-IN", "ne"],
    "mr" := ["mr-IN", "mr"],
    "sa" := ["sa-IN", "sa"],
    "sd" := ["sd-IN", "sd-PK", "sd"],
    "ks" := ["ks-IN", "ks"],
    "bod" := ["bod-IN", "bod"],
    "hinglish" := ["hi-IN", "en-IN", "hi", "en-US"]]

  /** The locales to try for the selected language: its own list, or American English. */
  function VoiceLanguages(selected: string): seq<string> {
    if selected in VoiceLanguageMap then VoiceLanguageMap[selected] else ["en-US"]
  }

  /** The language part of a locale: everything before its first dash. */
  function LanguageCode(lang: string): (r: string)
    ensures |r| <= |lang| && lang[..|r|] == r
    ensures '-' !in r
    ensures |r| < |lang| ==> lang[|r|] == '-'
  {
    if lang == [] || lang[0] == '-' then []
    else
      var rest := LanguageCode(lang[1..]);
      assert lang[1..][..|rest|] == lang[1..|rest| + 1];
      [lang[0]] + rest
  }

  /** The voice's locale begins with the language code of `lang`, or is `lang`, ignoring case. */
  predicate Speaks(v: Voice, lang: string) {
    At(Lower(v.lang), 0, Lower(LanguageCode(lang))) || Lower(v.lang) == Lower(lang)
  }

  /** `Array.prototype.filter` over voices. */
  function Select(voices: seq<Voice>, p: Voice -> bool): (r: seq<Voice>)
    ensures |r| <= |voices|
    ensures forall v | v in r :: v in voices && p(v)
    ensures forall v | v in voices && p(v) :: v in r
  {
    if voices == [] then []
    else if p(voices[0]) then [voices[0]] + Select(voices[1..], p)
    else Select(voices[1..], p)
  }

  /** The first voice selected is the first voice that passes (so `find` agrees with the head of
      `filter`). */
  lemma {:induction false} SelectFirst(voices: seq<Voice>, p: Voice -> bool)
    requires Select(voices, p) != []
    ensures exists i | 0 <= i < |voices| ::
      voices[i] == Select(voices, p)[0] && p(voices[i]) && forall j | 0 <= j < i :: !p(voices[j])
    decreases |voices|
  {
    if !p(voices[0]) {
      SelectFirst(voices[1..], p);
      var i :| 0 <= i < |voices[1..]| && voices[1..][i] == Select(voices[1..], p)[0]
               && p(voices[1..][i]) && forall j | 0 <= j < i :: !p(voices[1..][j]);
      forall j | 0 <= j < i + 1 ensures !p(voices[j]) {
        if j > 0 { assert voices[j] == voices[1..][j - 1]; }
      }
      assert voices[i + 1] == voices[1..][i];
    } else {
      assert voices[0] == Select(voices, p)[0];
    }
  }

  /** The voices that speak a locale, in the browser's order. */
  function LanguageVoices(voices: seq<Voice>, lang: string): (r: seq<Voice>)
    ensures forall v :: v in r <==> v in voices && Speaks(v, lang)
  {
    Select(voices, (v: Voice) => Speaks(v, lang))
  }

  /** The voice's name contains `word`, ignoring case. */
  predicate Named(v: Voice, word: string) {
    Contains(Lower(v.name), word)
  }

  /** The five preference tiers, most realistic first; the last accepts every voice. */
  const Preferences: seq<Voice -> bool> := [
    (v: Voice) => Named(v, "neural") || Named(v, "enhanced") || Named(v, "premium")
                  || Named(v, "wavenet") || Named(v, "studio"),
    (v: Voice) => v.localService && !Named(v, "google"),
    (v: Voice) => Named(v, "siri") || Named(v, "cortana") || Named(v, "alexa")
                  || Named(v, "samantha") || Named(v, "alex"),
    (v: Voice) => v.localService,
    (v: Voice) => true]

  /** The names taken for a female voice in beginner mode. */
  predicate SoundsFemale(v: Voice) {
    || Named(v, "female") || Named(v, "woman")
    || Named(v, "samantha") || Named(v, "alex") || Named(v, "victoria") || Named(v, "zira")
    || Named(v, "helena") || Named(v, "susan") || Named(v, "karen")
  }

  /** The names taken for a male voice in mastery mode. */
  predicate SoundsMale(v: Voice) {
    || Named(v, "male") || Named(v, "man")
    || Named(v, "david") || Named(v, "mark") || Named(v, "daniel") || Named(v, "james")
    || Named(v, "tom") || Named(v, "fred")
  }

  /** The voice taken from a non-empty tier: in beginner mode its first female voice, in mastery
      mode its first male voice, and otherwise, or when there is none, its first voice. */
  function Choose(matching: seq<Voice>, mode: string): (v: Voice)
    requires matching != []
    ensures v in matching
  {
    var female := Select(matching, SoundsFemale);
    var male := Select(matching, SoundsMale);
    if mode == "beginner" && |female| > 0 then female[0]
    else if mode == "mastery" && |male| > 0 then male[0]
    else matching[0]
  }

  /** Beginner mode picks a female voice and mastery mode a male one whenever the tier has one;
      any other mode picks the tier's first voice. */
  lemma ChooseProperties(matching: seq<Voice>, mode: string)
    requires matching != []
    ensures mode == "beginner" && (exists u | u in matching :: SoundsFemale(u)) ==>
      SoundsFemale(Choose(matching, mode))
    ensures mode == "mastery" && (exists u | u in matching :: SoundsMale(u)) ==>
      SoundsMale(Choose(matching, mode))
    ensures mode != "beginner" && mode != "mastery" ==> Choose(matching, mode) == matching[0]
  {
  }

  /** The voice chosen among one locale's voices, trying the tiers from `k` on. */
  function FromTier(voices: seq<Voice>, mode: string, k: nat): (r: Option<Voice>)
    decreases |Preferences| - k
  {
    if k >= |Preferences| then None
    else
      var matching := Select(voices, Preferences[k]);
      if matching != [] then Some(Choose(matching, mode)) else FromTier(voices, mode, k + 1)
  }

  /** The voice chosen for the locales from the first on: the first locale with a tier that has
      a voice decides. */
  function PreferredVoice(voices: seq<Voice>, langs: seq<string>, mode: string): (r: Option<Voice>)
  {
    if langs == [] then None
    else
      var found := FromTier(LanguageVoices(voices, langs[0]), mode, 0);
      if found.Some? then found else PreferredVoice(voices, langs[1..], mode)
  }

  /** `findUltraRealisticVoice`: for each locale in turn, the voices that speak it, tried against
      each tier in turn; the first tier that has a voice gives the answer. */
  method FindVoice(voices: seq<Voice>, langs: seq<string>, mode: string) returns (r: Option<Voice>)
    ensures r == PreferredVoice(voices, langs, mode)
  {
    var i := 0;
    while i < |langs|
      invariant 0 <= i <= |langs|
      invariant PreferredVoice(voices, langs, mode) == PreferredVoice(voices, langs[i..], mode)
    {
      var found := TierChoice(LanguageVoices(voices, langs[i]), mode);
      assert langs[i..][0] == langs[i];
      if found.Some? {
        return found;
      }
      assert langs[i..][1..] == langs[i + 1..];
      i := i + 1;
    }
    r := None;
  }

  /** The inner loop of `findUltraRealisticVoice`: the tiers tried in turn against one locale's
      voices, the first that has a voice giving the answer. */
  method TierChoice(languageVoices: seq<Voice>, mode: string) returns (r: Option<Voice>)
    ensures r == FromTier(languageVoices, mode, 0)
  {
    var k := 0;
    while k < |Preferences|
      invariant 0 <= k <= |Preferences|
      invariant FromTier(languageVoices, mode, 0) == FromTier(languageVoices, mode, k)
    {
      var matching := Select(languageVoices, Preferences[k]);
      if |matching| > 0 {
        if mode == "beginner" {
          var female := Select(matching, SoundsFemale);
          if |female| > 0 {
            return Some(female[0]);
          }
        }
        if mode == "mastery" {
          var male := Select(matching, SoundsMale);
          if |male| > 0 {
            return Some(male[0]);
          }
        }
        return Some(matching[0]);
      }
      k := k + 1;
    }
    r := None;
  }

  /** A tier from `k` on finds a voice exactly when the locale has voices, and it is one of them. */
  lemma {:induction false} FromTierFinds(voices: seq<Voice>, mode: string, k: nat)
    requires k < |Preferences|
    ensures FromTier(voices, mode, k).Some? <==> voices != []
    ensures FromTier(voices, mode, k).Some? ==> FromTier(voices, mode, k).value in voices
    decreases |Preferences| - k
  {
    var matching := Select(voices, Preferences[k]);
    if matching == [] && k + 1 < |Preferences| {
      FromTierFinds(voices, mode, k + 1);
    } else if voices != [] && k + 1 == |Preferences| {
      assert Preferences[k](voices[0]);
      assert voices[0] in matching;
    }
  }

  /** No voice is found exactly when no locale has a voice that speaks it. */
  lemma {:induction false} NoVoiceOnlyWhenSilent(voices: seq<Voice>, langs: seq<string>, mode: string)
    ensures PreferredVoice(voices, langs, mode).None? <==>
            forall i | 0 <= i < |langs| :: LanguageVoices(voices, langs[i]) == []
    decreases |langs|
  {
    if langs != [] {
      FromTierFinds(LanguageVoices(voices, langs[0]), mode, 0);
      NoVoiceOnlyWhenSilent(voices, langs[1..], mode);
      forall i | 0 < i < |langs| ensures langs[i] == langs[1..][i - 1] { }
    }
  }

  /** The `i`-th locale is the first one some voice speaks. */
  predicate FirstVoiced(voices: seq<Voice>, langs: seq<string>, i: nat) {
    && i < |langs|
    && LanguageVoices(voices, langs[i]) != []
    && forall j | 0 <= j < i :: LanguageVoices(voices, langs[j]) == []
  }

  /** A voice found speaks the first locale that has a voice, and it is one of the browser's. */
  lemma {:induction false} VoiceFromFirstLanguage(voices: seq<Voice>, langs: seq<string>,
                                                  mode: string)
    requires PreferredVoice(voices, langs, mode).Some?
    ensures exists i: nat | FirstVoiced(voices, langs, i) ::
      PreferredVoice(voices, langs, mode).value in LanguageVoices(voices, langs[i])
    ensures PreferredVoice(voices, langs, mode).value in voices
    decreases |langs|
  {
    var here := LanguageVoices(voices, langs[0]);
    var r := PreferredVoice(voices, langs, mode);
    FromTierFinds(here, mode, 0);
    if here == [] {
      assert r == PreferredVoice(voices, langs[1..], mode);
      VoiceFromFirstLanguage(voices, langs[1..], mode);
      var i: nat :| FirstVoiced(voices, langs[1..], i) && r.value in LanguageVoices(voices, langs[1..][i]);
      FirstVoicedShift(voices, langs, i);
    } else {
      assert FirstVoiced(voices, langs, 0);
    }
  }

  /** Behind a silent first locale, the first voiced locale moves one place on. */
  lemma FirstVoicedShift(voices: seq<Voice>, langs: seq<string>, i: nat)
    requires langs != [] && LanguageVoices(voices, langs[0]) == []
    requires FirstVoiced(voices, langs[1..], i)
    ensures FirstVoiced(voices, langs, i + 1) && langs[i + 1] == langs[1..][i]
  {
    forall j | 0 <= j < i + 1 ensures LanguageVoices(voices, langs[j]) == [] {
      if j > 0 { assert langs[j] == langs[1..][j - 1]; }
    }
  }

  // ---- The table and the search together ----

  /** The languages whose voices the locales tried for `selected` ask for: Hindi and English for
      Hinglish, the language itself for the other languages of the table, and English for every
      language outside it. */
  function SpokenLanguages(selected: string): (r: set<string>)
    ensures r != {}
  {
    if selected == "hinglish" then {"hi", "en"}
    else if selected in VoiceLanguageMap then {selected}
    else {"en"}
  }

  /** Every locale tried for a language belongs to one of the languages it asks for: each
      locale in the table starts with its key (or, for Hinglish, with `hi` or `en`). */
  lemma LocalesOfLanguage(selected: string)
    ensures forall l | l in VoiceLanguages(selected) :: LanguageCode(l) in SpokenLanguages(selected)
  {
    if selected == "hinglish" {
      HinglishCodes();
    } else if selected in VoiceLanguageMap {
      TableCodesFirst(selected);
      TableCodesSecond(selected);
      TableCodesThird(selected);
      TableCodesFourth(selected);
    } else {
      CodeBefore("en", "-US");
    }
  }

  lemma TableCodesFirst(selected: string)
    requires selected in VoiceLanguageMap
    ensures selected in {"en", "hi", "ur"} ==>
      forall l | l in VoiceLanguageMap[selected] :: LanguageCode(l) == selected
  {
    if selected == "en" {
      KeyCodes("en", ["en-US", "en-GB", "en-AU", "en-CA", "en-IN", "en-NZ", "en-ZA"]);
    } else if selected == "hi" {
      KeyCodes("hi", ["hi-IN", "hi"]);
    } else if selected == "ur" {
      KeyCodes("ur", ["ur-PK", "ur-IN", "ur"]);
    }
  }

  lemma TableCodesSecond(selected: string)
    requires selected in VoiceLanguageMap
    ensures selected in {"ta", "ml", "bn", "pa", "gu"} ==>
      forall l | l in VoiceLanguageMap[selected] :: LanguageCode(l) == selected
  {
    if selected == "ta" {
      KeyCodes("ta", ["ta-IN", "ta-LK", "ta-SG", "ta"]);
    } else if selected == "ml" {
      KeyCodes("ml", ["ml-IN", "ml"]);
    } else if selected == "bn" {
      KeyCodes("bn", ["bn-IN", "bn-BD", "bn"]);
    } else if selected == "pa" {
      KeyCodes("pa", ["pa-IN", "pa-PK", "pa"]);
    } else if selected == "gu" {
      KeyCodes("gu", ["gu-IN", "gu"]);
    }
  }

  lemma TableCodesThird(selected: string)
    requires selected in VoiceLanguageMap
    ensures selected in {"kn", "te", "or", "as", "ne"} ==>
      forall l | l in VoiceLanguageMap[selected] :: LanguageCode(l) == selected
  {
    if selected == "kn" {
      KeyCodes("kn", ["kn-IN", "kn"]);
    } else if selected == "te" {
      KeyCodes("te", ["te-IN", "te"]);
    } else if selected == "or" {
      KeyCodes("or", ["or-IN", "or"]);
    } else if selected == "as" {
      KeyCodes("as", ["as-IN", "as"]);
    } else if selected == "ne" {
      KeyCodes("ne", ["ne-NP", "ne-IN", "ne"]);
    }
  }

  lemma TableCodesFourth(selected: string)
    requires selected in VoiceLanguageMap
    ensures selected in {"mr", "sa", "sd", "ks", "bod"} ==>
      forall l | l in VoiceLanguageMap[selected] :: LanguageCode(l) == selected
  {
    if selected == "mr" {
      KeyCodes("mr", ["mr-IN", "mr"]);
    } else if selected == "sa" {
      KeyCodes("sa", ["sa-IN", "sa"]);
    } else if selected == "sd" {
      KeyCodes("sd", ["sd-IN", "sd-PK", "sd"]);
    } else if selected == "ks" {
      KeyCodes("ks", ["ks-IN", "ks"]);
    } else if selected == "bod" {
      KeyCodes("bod", ["bod-IN", "bod"]);
    }
  }

  lemma HinglishCodes()
    ensures forall l | l in VoiceLanguageMap["hinglish"] :: LanguageCode(l) in {"hi", "en"}
  {
    assert VoiceLanguageMap["hinglish"] == ["hi-IN", "en-IN", "hi", "en-US"];
    CodeBefore("hi", "-IN");
    CodeBefore("en", "-IN");
    CodeBefore("hi", "");
    CodeBefore("en", "-US");
    assert "hi" + "-IN" == "hi-IN" && "en" + "-IN" == "en-IN" && "hi" + "" == "hi";
    assert "en" + "-US" == "en-US";
  }

  /** One key of the table: its locales all start with it. */
  lemma KeyCodes(key: string, ls: seq<string>)
    requires key in VoiceLanguageMap && VoiceLanguageMap[key] == ls && '-' !in key
    requires forall i | 0 <= i < |ls| ::
      |key| <= |ls[i]| && ls[i][..|key|] == key && (|key| == |ls[i]| || ls[i][|key|] == '-')
    ensures forall l | l in VoiceLanguageMap[key] :: LanguageCode(l) == key
  {
    CodesAll(ls, key);
  }

  /** The code of a locale written as a code and then a dash (or nothing) is that code. */
  lemma {:induction false} CodeBefore(c: string, rest: string)
    requires '-' !in c && (rest == [] || rest[0] == '-')
    ensures LanguageCode(c + rest) == c
    decreases |c|
  {
    if c == [] {
      assert c + rest == rest;
    } else {
      assert (c + rest)[0] == c[0] && (c + rest)[1..] == c[1..] + rest;
      CodeBefore(c[1..], rest);
      assert [c[0]] + c[1..] == c;
    }
  }

  lemma CodesAll(ls: seq<string>, c: string)
    requires '-' !in c
    requires forall i | 0 <= i < |ls| ::
      |c| <= |ls[i]| && ls[i][..|c|] == c && (|c| == |ls[i]| || ls[i][|c|] == '-')
    ensures forall l | l in ls :: LanguageCode(l) == c
  {
    forall l | l in ls ensures LanguageCode(l) == c {
      CodeBefore(c, l[|c|..]);
      assert c + l[|c|..] == l;
    }
  }

  /** A voice found for the selected language speaks one of the languages it asks for: its
      locale, ignoring case, starts with that language's code. So a Tamil answer is read by a
      Tamil voice when the browser has one, and never by a voice of a language outside the
      table's list for Tamil. */
  lemma VoiceSpeaksSelected(voices: seq<Voice>, selected: string, mode: string)
    requires PreferredVoice(voices, VoiceLanguages(selected), mode).Some?
    ensures exists c | c in SpokenLanguages(selected) ::
      At(Lower(PreferredVoice(voices, VoiceLanguages(selected), mode).value.lang), 0, Lower(c))
  {
    var langs := VoiceLanguages(selected);
    var v := PreferredVoice(voices, langs, mode).value;
    VoiceFromFirstLanguage(voices, langs, mode);
    var i: nat :| FirstVoiced(voices, langs, i) && v in LanguageVoices(voices, langs[i]);
    LocalesOfLanguage(selected);
    assert langs[i] in langs;
    SpeaksCode(v, langs[i]);
  }

  /** A voice that speaks a locale has a locale starting with the locale's language code. */
  lemma SpeaksCode(v: Voice, lang: string)
    requires Speaks(v, lang)
    ensures At(Lower(v.lang), 0, Lower(LanguageCode(lang)))
  {
    var c := LanguageCode(lang);
    if Lower(v.lang) == Lower(lang) {
      assert c <= lang;
      forall i | 0 <= i < |c| ensures Lower(c)[i] == Lower(v.lang)[i] {
        assert c[i] == lang[i];
      }
    }
  }

  /** Because `male` occurs in `female` and `man` in `woman`, every voice named as female also
      counts as male in mastery mode. */
  lemma FemaleNamesSoundMale(v: Voice)
    requires Named(v, "female") || Named(v, "woman")
    ensures SoundsMale(v)
  {
    var name := Lower(v.name);
    if Named(v, "female") {
      var k :| 0 <= k <= |name| && At(name, k, "female");
      assert name[k + 2..k + 6] == "male";
      assert At(name, k + 2, "male");
    } else {
      var k :| 0 <= k <= |name| && At(name, k, "woman");
      assert name[k + 2..k + 5] == "man";
      assert At(name, k + 2, "man");
    }
  }
}
