/** utilities/TextFileWriter: a text file used as an append-only log of
    entries. Each write appends the content followed by the platform line
    separator, so the file is modelled as the sequence of written entries. */
module TextFileWriter {

  class TextFile {
    /** The entries written since the file was last cleared, oldest first. */
    var entries: seq<string>

    constructor ()
      ensures entries == []
    {
      entries := [];
    }

    /** clearFile: overwrite the file with the empty string. */
    method ClearFile()
      modifies this
      ensures entries == []
    {
      entries := [];
    }

    /** writeToTextFile: append `content` as one more entry. */
    method WriteToTextFile(content: string)
      modifies this
      ensures entries == old(entries) + [content]
    {
      entries := entries + [content];
    }
  }
}
