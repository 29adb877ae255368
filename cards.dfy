/** The card record the web client receives from the catalogue API. */
module Cards {

  /** One trading card. The source's `type` field is called `cardType`
      here, because `type` is a reserved word in Dafny. The numeric fields
      are JavaScript numbers in the source; the model uses mathematical
      integers, which the search filter never inspects. */
  datatype Card = Card(
    id: int,
    name: string,
    cardType: string,
    hp: int,
    attack: int,
    weakness: string,
    resistance: string
  )
}
