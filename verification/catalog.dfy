/** The course records the assistant loads from JSON. Only the fields the
    matcher and the document builder look at are modelled. */
module Catalog {

  /** The value found under the `'review by students'` key of a record. */
  datatype ReviewField =
    | Missing                        // the key is absent
    | ReviewList(items: seq<string>) // a JSON array of strings
    | ReviewText(text: string)       // a JSON string
    | OtherValue                     // null, a number, a boolean or an object

  /** One catalog entry: `name` and `instructor` are always present. */
  datatype CourseRecord = CourseRecord(name: string, instructor: string, reviews: ReviewField)
}
