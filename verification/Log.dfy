/** The log as an append-only trace; a line is kept as its format and its argument. */
module Log {
  datatype Line =
    | Operator(name: string)
    | Channel(name: string)
    | EntryName(name: string)
    | Replaces(name: string)
    | Skips(name: string)
    | SkipRange(range: string)
    | Bundle(name: string)
    | Copying(reference: string)
    | ManifestDigest(hex: string)
    | Label(value: string)
    | TarExists
    | Listing(reference: string)
    | ListingDir(dir: string)
    | CatalogError

  class Logger {
    var lines: seq<Line>

    constructor ()
      ensures lines == []
    {
      lines := [];
    }

    method Write(line: Line)
      modifies this
      ensures lines == old(lines) + [line]
    {
      lines := lines + [line];
    }
  }
}
