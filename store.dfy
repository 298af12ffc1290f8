/** The saved-text store: one list of strings that only ever grows. */
module Store {

  /** Holds the texts the user has saved, oldest first. */
  class TextStore {
    var savedTexts: seq<string>

    /** The store starts out holding no texts. */
    constructor ()
      ensures savedTexts == []
    {
      savedTexts := [];
    }

    /** Appends `newText` as the new last entry. There is no validation and
        no deduplication: an empty text or one already present is stored
        like any other. Earlier entries keep their values and their order. */
    method AddText(newText: string)
      modifies this`savedTexts
      ensures savedTexts == old(savedTexts) + [newText]
      ensures |savedTexts| == |old(savedTexts)| + 1
      ensures savedTexts[..|old(savedTexts)|] == old(savedTexts)
      ensures savedTexts[|savedTexts| - 1] == newText
      ensures multiset(savedTexts)[newText] == multiset(old(savedTexts))[newText] + 1
    {
      savedTexts := savedTexts + [newText];
    }
  }
}
