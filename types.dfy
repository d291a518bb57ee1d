/** Shared value types of the story publisher: optional values, results, and the two
    implementations (the Python command-line tool and the JavaScript plug-in) whose
    behaviour differs in small, named ways. */
module Types {

  /** `None` stands for Python's `None` and JavaScript's `null`. */
  datatype Option<+T> = None | Some(value: T)

  /** A value or the error that the source raises or throws instead. */
  datatype Result<+R, +E> = Success(value: R) | Failure(error: E)

  /** Which implementation a definition follows where the two differ
      (whitespace, the regular-expression dot, line splitting, truthiness). */
  datatype Dialect = Python | JavaScript

  /** A JSON value as the ServiceNow Table API returns it and as `--additional` and
      the request payload carry it; a number keeps its literal text. */
  datatype Json =
    | JNull
    | JBool(b: bool)
    | JNumber(literal: string)
    | JString(str: string)
    | JArray(items: seq<Json>)
    | JObject(fields: map<string, Json>)
}
