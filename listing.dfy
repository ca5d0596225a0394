/** The descriptive part of one used-car listing as the inventory API returns it.
    None of these fields takes part in reconciliation; they are carried through
    unchanged so that notifications can show them. */
module Listing {

  datatype Details = Details(
    model: string,
    year: int,
    plate: string,
    firstRegistered: string,
    odometer: int,
    odometerType: string,
    trim: string,
    options: seq<string>,
    location: string)

  /** The zero value of the descriptive fields (what a Go composite literal
      that names none of them leaves behind). */
  const NoDetails := Details("", 0, "", "", 0, "", "", [], "")
}
