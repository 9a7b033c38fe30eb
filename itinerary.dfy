/** The itinerary data model shared by the sheet parser and the views. */
module Itinerary {
  import opened Common
  import opened EventType
  import opened OptionSyntax

  /** One event read from a sheet cell. */
  datatype Event = Event(
    id: string,
    time: string,
    title: string,
    options: Option<seq<Choice>>,
    description: string,
    kind: Kind,
    location: string,
    image: string,
    fixed: bool)

  /** An event as a day lists it: a run of equal cells merged into one,
      shown with its time range. */
  datatype Slot = Slot(event: Event, displayTime: string)

  datatype Day = Day(date: string, dayOfWeek: string, events: seq<Slot>)

  datatype Metadata = Metadata(title: string, startDate: string, endDate: string)

  /** What the sheet parser returns. */
  datatype Trip = Trip(itinerary: seq<Day>, metadata: Metadata)
}
