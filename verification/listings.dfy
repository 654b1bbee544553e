/** One row of the car-listings table, as the cleaning functions see it.
    The derived columns start out missing and are filled in by the column
    functions of the Price, Colour, Year, Brand and CarModel modules. */
module Listings {
  import opened Wrappers

  /** A Price cell: the raw text read from the file, or an integer once
      cleaned (a non-string cell is left alone by the cleaning regex). */
  datatype PriceCell = PriceText(text: string) | Amount(value: int)

  datatype Listing = Listing(
    title: string,
    description: string,
    price: PriceCell,
    colour: Option<string>,
    year: Option<string>,
    brand: Option<string>,
    model: Option<string>)

  /** The placeholder written into an empty Colour or Model cell. */
  const NotSpecified: string := "Not Specified"
}
