/**
 * Shared wrappers: an optional value, and the outcome of a step of the
 * download pipeline that may raise instead of producing a value.
 */
module Types {

  datatype Option<+T> = None | Some(value: T)

  /** The Python exceptions that the modelled rules can raise, one per cause. */
  datatype Error =
    | VideoTokenMissing     // str.index("/video/") raises ValueError
    | BraceMissing          // str.index('{') or str.rindex('}') raises ValueError
    | MalformedQueryPart    // a bare `playbackurl` part has no '=', so parts[1] raises IndexError
    | NoVideoVariant        // video_options[-1] on an empty list raises IndexError
    | EmptyChoice           // int('') raises ValueError
    | SlashMissing          // str.rindex("/") raises ValueError

  datatype Result<+T> = Ok(value: T) | Err(error: Error)
}
