/** Media types of responses, standing for the `mime` crate's `Mime`. */
module Media {

  /** `Guessed` is whatever `mime_guess` returns for a path; its rules are not modelled. */
  datatype Mime = TextHtml | TextPlain | Guessed(essence: string)
}
