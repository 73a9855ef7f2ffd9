/** The read-only destination catalog entries. The catalog itself lives in a
    data module that is not part of this model; operations that consult it
    take it as a parameter. */
module Catalog {

  /** A suggested place to stay; `rating` is only displayed. */
  datatype Accommodation = Accommodation(name: string, rating: real)

  /** A suggested activity; `timing` and `duration` are display text. */
  datatype Activity = Activity(name: string, timing: string, duration: string)

  /** A searchable city with its fixed suggestion lists. */
  datatype Destination = Destination(
    city: string,
    accommodations: seq<Accommodation>,
    activities: seq<Activity>)

  /** The key by which the plan compares accommodations. */
  function AccommodationName(a: Accommodation): string {
    a.name
  }

  /** The key by which the plan compares activities. */
  function ActivityName(a: Activity): string {
    a.name
  }

}
