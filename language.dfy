/**
 * The interface language: the `ru`/`en` switch, the `t(key)` lookup with its
 * fall-back to the key, and `translateRole`, which shows a stored role in the
 * current language whichever language it was entered in.
 */
module Language {
  import opened Text

  datatype Lang = Ru | En

  /** `toggleLanguage`: ru becomes en and anything else becomes ru. */
  function Toggle(l: Lang): (r: Lang)
    ensures r != l
  {
    if l == Ru then En else Ru
  }

  /** Toggling twice restores the language. */
  lemma ToggleTwice(l: Lang)
    ensures Toggle(Toggle(l)) == l
  {
  }

  /** One row of the translation table: the Russian and the English text. */
  datatype Entry = Entry(ru: string, en: string) {
    function In(l: Lang): string {
      if l == Ru then ru else en
    }
  }

  /** `t(key)`: `translations[key]?.[language] || key` over a translation table. */
  function T(table: map<string, Entry>, lang: Lang, key: string): (r: string)
    ensures key !in table ==> r == key
    ensures key in table && table[key].In(lang) != "" ==> r == table[key].In(lang)
    ensures key in table && table[key].In(lang) == "" ==> r == key
    ensures r != "" || key == ""
  {
    if key in table && table[key].In(lang) != "" then table[key].In(lang) else key
  }

  /** The four role rows of the translation table. */
  const RoleEntries: map<string, Entry> := map[
    "roleParticipant" := Entry("участник", "participant"),
    "roleSpeaker" := Entry("докладчик", "speaker"),
    "roleWinner" := Entry("победитель", "winner"),
    "rolePrizeWinner" := Entry("призер", "prize winner")
  ]

  /** `roleMap`: both spellings of each role, lower case, to its table key. */
  const RoleKeys: map<string, string> := map[
    "участник" := "roleParticipant",
    "participant" := "roleParticipant",
    "докладчик" := "roleSpeaker",
    "speaker" := "roleSpeaker",
    "победитель" := "roleWinner",
    "winner" := "roleWinner",
    "призер" := "rolePrizeWinner",
    "prize winner" := "rolePrizeWinner"
  ]

  /** `translateRole(role, language)`. */
  function TranslateRole(role: string, lang: Lang): string {
    var k := ToLower(role);
    if k in RoleKeys then
      var key := RoleKeys[k];
      if key in RoleEntries && RoleEntries[key].In(lang) != "" then RoleEntries[key].In(lang) else role
    else role
  }

  /** No key of the role map holds a Latin or Cyrillic capital. */
  lemma RoleKeysUncapitalised()
    ensures forall k :: k in RoleKeys ==> Uncapitalised(k)
  {
  }

  /** Every key of the role map is already in lower case. */
  lemma RoleKeysLowered()
    ensures forall k :: k in RoleKeys ==> ToLower(k) == k
  {
    RoleKeysUncapitalised();
    forall k | k in RoleKeys
      ensures ToLower(k) == k
    {
      LowerOfUncapitalised(k);
    }
  }

  /** Every translated text of a role is itself a key of the role map, naming the same row. */
  lemma RoleValuesAreKeys()
    ensures forall key, l :: key in RoleEntries ==>
      RoleEntries[key].In(l) in RoleKeys && RoleKeys[RoleEntries[key].In(l)] == key
  {
  }

  /** The lookup ignores letter case: two spellings that lower to the same text translate alike. */
  lemma {:induction false} TranslateRoleCaseInsensitive(r1: string, r2: string, lang: Lang)
    requires ToLower(r1) == ToLower(r2)
    requires ToLower(r1) in RoleKeys
    ensures TranslateRole(r1, lang) == TranslateRole(r2, lang)
  {
  }

  /** A role that is not in the role map, in any letter case, is shown as it is. */
  lemma TranslateRoleUnknown(role: string, lang: Lang)
    requires ToLower(role) !in RoleKeys
    ensures TranslateRole(role, lang) == role
  {
  }

  /** A known role translates to the table row of its key, in the requested language. */
  lemma TranslateRoleKnown(role: string, lang: Lang)
    requires ToLower(role) in RoleKeys
    ensures TranslateRole(role, lang) == RoleEntries[RoleKeys[ToLower(role)]].In(lang)
  {
  }

  /** Two spellings that name the same row, such as the Russian and the English one, show the same text. */
  lemma SpellingsAgree(a: string, b: string, lang: Lang)
    requires a in RoleKeys && b in RoleKeys && RoleKeys[a] == RoleKeys[b]
    ensures TranslateRole(a, lang) == TranslateRole(b, lang)
  {
    RoleKeysLowered();
    assert ToLower(a) == a && ToLower(b) == b;
    TranslateRoleKnown(a, lang);
    TranslateRoleKnown(b, lang);
  }

  /** Translating an already translated role changes nothing. */
  lemma TranslateRoleIdempotent(role: string, lang: Lang)
    ensures TranslateRole(TranslateRole(role, lang), lang) == TranslateRole(role, lang)
  {
    var k := ToLower(role);
    if k in RoleKeys {
      var v := TranslateRole(role, lang);
      RoleValuesAreKeys();
      RoleKeysUncapitalised();
      assert RoleKeys[k] in RoleEntries;
      assert v == RoleEntries[RoleKeys[k]].In(lang);
      LowerOfUncapitalised(v);
    }
  }
}
