/** The values the scripts exchange with the GitHub REST API and with their
    tabular files. Every HTTP GET is an input value `Response(status, body)`;
    a JSON object is a record holding only the fields the scripts read. */
module Api {

  datatype Option<T> = None | Some(value: T)

  /** What makes a script raise. */
  datatype Error =
    | HttpError(status: int)      // a non-200 page: `raise Exception(f"Error: {status} ...")`
    | MissingKey(key: string)     // `row[key]` or `obj[key]` on a dict without that key
    | MissingColumn(index: nat)   // `row[index]` on a CSV row that is too short
    | NoHeader                    // `next(reader)` on an empty CSV file

  datatype Result<T> = Ok(value: T) | Err(error: Error)

  /** One HTTP response: its status code and its decoded JSON list. */
  datatype Response<T> = Response(status: int, body: seq<T>)

  /** A CSV file's rows, header included. */
  type Table = seq<seq<string>>

  /** The "description" field of a team object: absent from the object,
      JSON null, or a string. */
  datatype Description = Absent | Null | Text(text: string)

  datatype Team = Team(name: string, slug: string, description: Description)

  /** A repository object. `createdDay` is `created_at` as a day number
      (the date parsing is not modelled). */
  datatype Repo = Repo(name: string, fullName: string, defaultBranch: string,
                       createdAt: string, createdDay: int)

  /** A repository event (`/repos/{r}/events`). */
  datatype Event = Event(kind: string, actorLogin: string)

  /** A commit (`/repos/{r}/commits`), reduced to its author's name. */
  datatype Commit = Commit(authorName: string)

  /** A custom property value (`/repos/{r}/properties/values`). */
  datatype Property = Property(propertyName: string, value: string)

  /** A ruleset (`/repos/{o}/{r}/rulesets`); only the list's length is used. */
  datatype Ruleset = Ruleset(id: int)

  /** A label object; `name` is None when the object has no "name" key. */
  datatype Label = Label(name: Option<string>)
}
