/** The settings the classifier reads (app/config/config.py). Only the two
    constants that shape results are modelled. */
module Config {

  /** `VALID_CATEGORIES`, in the order the coercion step searches them. */
  const ValidCategories: seq<string> :=
    ["Productivity", "Design", "Communication", "Development", "Finance", "Marketing"]

  /** `MAX_EXPLANATION_LENGTH` */
  const MaxExplanationLength: nat := 150

  /** The marker appended to a truncated explanation. */
  const Ellipsis: string := "..."

  /** The category used when nothing better is known. */
  const DefaultCategory: string := "Development"

  /** Membership in the closed list of categories. */
  predicate IsValidCategory(c: string) {
    c in ValidCategories
  }
}
