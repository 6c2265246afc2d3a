/** Values shared by every part of the model: the command-line input record,
    image references, and the foreign regular-expression engine. */
module Types {

  datatype Option<+T> = None | Some(value: T)

  /** A tag is a plain string such as "1.0" or "latest". */
  type Tag = string

  /** The parsed image reference of the containers/image library. Only its
      normalised Docker form (`DockerReference().String()`, for example
      "docker.io/library/alpine:latest") is observable by the core. */
  datatype ImageRef = ImageRef(normalized: string)

  /** The options record `CliInput` as filled in by the command line. */
  datatype CliInput = CliInput(
    Source: string,
    SourceStrictTLS: bool,
    Destination: string,
    DestinationStrictTLS: bool,
    TagsPattern: string,
    SkipTagsPattern: string,
    SkipTags: string,
    Overwrite: bool,
    MaxConcurrentTags: int)

  /** The Go regexp engine, left uninterpreted: whether a pattern compiles,
      and whether a compiled pattern matches a string. */
  datatype Regexp = Regexp(compiles: string -> bool, matches: (string, string) -> bool)
}
