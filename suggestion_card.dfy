/** The title shown on a suggestion card, cut down to fit the card. */
module SuggestionCard {
  const MaxTitle := 30
  const KeptPrefix := 27
  const Ellipsis: string := "..."

  /**
   * A title of at most 30 characters is shown whole; a longer one shows its
   * first 27 characters followed by an ellipsis, so exactly 30.
   */
  function DisplayTitle(title: string): (r: string)
    ensures |r| <= MaxTitle
    ensures |title| <= MaxTitle ==> r == title
    ensures |title| > MaxTitle ==>
      |r| == MaxTitle && r[..KeptPrefix] == title[..KeptPrefix] && r[KeptPrefix..] == Ellipsis
  {
    if |title| > MaxTitle then title[..KeptPrefix] + Ellipsis else title
  }

  /** Shortening a shown title again leaves it as it is. */
  lemma DisplayTitleIdempotent(title: string)
    ensures DisplayTitle(DisplayTitle(title)) == DisplayTitle(title)
  {
  }
}
