/**
 * The constants the core reads from config.py: the administrator's id, the
 * issue categories with their English and Amharic labels, the per-category
 * counselor fallback lists and the anonymous handle prefix. The bot token,
 * the database path and the localized texts are not part of the model; a
 * reply text is an opaque tag (see module Conversation).
 */
module Config {

  /** `ADMIN_ID` (the environment override is not modelled). */
  const AdminId: int := 5690529117

  /** `ANONYMOUS_ID_PREFIX`. */
  const AnonymousIdPrefix: string := "User-"

  /** The two interface languages, stored in the conversation data as "en" and "am". */
  datatype Lang = En | Am {
    function Other(): Lang {
      if this == En then Am else En
    }
  }

  /** One entry of `ISSUE_CATEGORIES`: the key and its two labels. */
  datatype IssueCategory = IssueCategory(key: string, en: string, am: string) {
    function Label(lang: Lang): string {
      if lang == En then en else am
    }
  }

  /** `ISSUE_CATEGORIES`, in the dictionary's insertion order. */
  const IssueCategories: seq<IssueCategory> := [
    IssueCategory("mental_health", "Mental Health", "የአእምሮ ጤና"),
    IssueCategory("relationship", "Relationship", "ግንኙነት"),
    IssueCategory("stress", "Stress / Anxiety", "ውጥረት / ጭንቀት"),
    IssueCategory("academic", "Academic / Career", "ትምህርት / ሥራ"),
    IssueCategory("addiction", "Addiction", "ሱስ"),
    IssueCategory("family", "Family Problems", "የቤተሰብ ችግሮች"),
    IssueCategory("other", "Other", "ሌላ")
  ]

  /** `list(ISSUE_CATEGORIES.keys())`. */
  const CategoryKeys: seq<string> := [
    "mental_health", "relationship", "stress", "academic", "addiction", "family", "other"
  ]

  lemma CategoryKeysAreTheKeys()
    ensures |CategoryKeys| == |IssueCategories|
    ensures forall i :: 0 <= i < |CategoryKeys| ==> CategoryKeys[i] == IssueCategories[i].key
  {
  }

  /** `COUNSELOR_CATEGORIES`: every list is empty in the shipped configuration. */
  const CounselorCategories: map<string, seq<int>> := map[
    "mental_health" := [], "relationship" := [], "stress" := [], "academic" := [],
    "addiction" := [], "family" := [], "other" := []
  ]

  /** The two buttons of the language keyboard. */
  const EnglishButton: string := "English"
  const AmharicButton: string := "አማርኛ"

  /** The "change language" button of the main menu, in either language. */
  const ChangeLanguageEn: string := "🌐 Change Language"
  const ChangeLanguageAm: string := "🌐 ቋንቋ ቀይር"

  /** `STRINGS["buttons"]["end"]` and `STRINGS["buttons"]["back"]`. */
  function EndButton(lang: Lang): string {
    if lang == En then "End Session" else "ጨርስ"
  }

  function BackButton(lang: Lang): string {
    if lang == En then "Return Back" else "ተመለስ"
  }
}
