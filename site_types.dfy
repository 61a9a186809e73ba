/**
 * The records shared by the background script and the settings editor.
 * An optional TypeScript property (`enabled?`, `isEnabled?`,
 * `fontFamily?`) is an `Option`; `None` is an absent property.
 */
module SiteTypes {

  datatype Option<+T> = None | Some(value: T)

  /** A blocking window: weekdays 0 (Sunday) to 6 and two clock strings. */
  datatype Schedule = Schedule(
    days: seq<int>,
    startTime: string,
    endTime: string,
    enabled: Option<bool>)

  /** Appearance of the block page; the engine never looks inside it. */
  datatype CustomBlockPage = CustomBlockPage(
    title: string,
    message: string,
    backgroundColor: string,
    textColor: string,
    fontFamily: Option<string>)

  /** The one record kept in the settings store. The blocked sites are the
      strings the user typed, one per entry, with no enabled flag of
      their own. */
  datatype Settings = Settings(
    blockedSites: seq<string>,
    schedules: seq<Schedule>,
    customBlockPage: CustomBlockPage,
    isEnabled: Option<bool>)

  /** JavaScript truthiness of an optional boolean: only a present `true`. */
  predicate Truthy(b: Option<bool>) {
    b == Some(true)
  }
}
