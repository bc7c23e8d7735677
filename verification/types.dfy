/** The app's shared value types. */
module Types {

  /** The display units of the remaining-time view. */
  datatype Unit = Seconds | Minutes | Hours | Days | Weeks | MonthsAvg | Years | Digits

  /** Which one-line note the home screen opens by default. */
  datatype FocusMode = Today | Week

  /** A saved profile. Dates and times of day are kept as the strings the
      settings screen writes ("YYYY-MM-DD", "HH:MM"); the life expectancy is
      a whole number of years, the only kind the settings screen offers. */
  datatype Profile = Profile(
    birthISO: string,
    lifeExpectancyYears: int,
    activeStart: string,
    activeEnd: string,
    defaultFocusMode: FocusMode)
}
