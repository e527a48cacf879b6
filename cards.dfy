/** The vocabulary card record shared by the editor and the study session. */
module Cards {

  /** A card: three free-text fields, any of which may be empty. */
  datatype Card = Card(english: string, pinyin: string, character: string)

  /** The three keys of a card (`keyof Card`). */
  datatype Field = English | Pinyin | Character

  /** The card the editor appends: every field empty. */
  function EmptyCard(): Card {
    Card("", "", "")
  }

  /** Reads one field of a card (`card[field]`). */
  function Get(c: Card, f: Field): string {
    match f
    case English => c.english
    case Pinyin => c.pinyin
    case Character => c.character
  }

  /** The card with one field replaced (`card[field] = value`, on a value). */
  function Set(c: Card, f: Field, v: string): (r: Card)
    ensures Get(r, f) == v
    ensures forall g :: g != f ==> Get(r, g) == Get(c, g)
  {
    match f
    case English => c.(english := v)
    case Pinyin => c.(pinyin := v)
    case Character => c.(character := v)
  }

  /** Writing back the value a field already holds changes nothing. */
  lemma SetUnchanged(c: Card, f: Field)
    ensures Set(c, f, Get(c, f)) == c
  {
  }

  /** Writing one field twice keeps only the second write. */
  lemma SetTwice(c: Card, f: Field, v: string, w: string)
    ensures Set(Set(c, f, v), f, w) == Set(c, f, w)
  {
  }
}
