/** The rows of the nuclear-explosions table and the small wrapper types the views use. */
module Events {

  datatype Option<T> = None | Some(value: T)

  datatype Result<T, E> = Ok(value: T) | Err(error: E)

  /** One row of the table, restricted to the columns the views read.
      Yields and coordinates are only ever compared or copied, so they are
      modelled as reals. */
  datatype Event = Event(
    sourceCountry: string,  // WEAPON SOURCE COUNTRY
    location: string,       // WEAPON DEPLOYMENT LOCATION
    year: int,              // Date.Year
    month: int,             // Date.Month
    day: int,               // Date.Day
    yieldLower: real,       // Data.Yeild.Lower (kilotons of TNT)
    yieldUpper: real,       // Data.Yeild.Upper (kilotons of TNT)
    latitude: real,         // Location.Cordinates.Latitude
    longitude: real)        // Location.Cordinates.Longitude
}
