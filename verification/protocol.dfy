/** The protocol records the extractor produces: buffer identifiers, source
    files and viewports. */
module Protocol {
  import opened Syntax

  /** Names a file, or a labelled region inside it. */
  datatype BufferId = BufferId(fileName: string, regionName: string)

  /** A source file as the extractor sees it: its name and its text. */
  datatype SourceFile = SourceFile(name: string, text: string)

  /** A file as it arrives inside a workspace request. */
  datatype WorkspaceFile = WorkspaceFile(name: string, text: string)

  /** A labelled sub-range of a source file. */
  datatype Viewport = Viewport(destination: SourceFile, region: TextSpan, bufferId: BufferId)

  /** `SourceFile.Create(file.Text, file.Name)`. */
  function ToSourceFile(f: WorkspaceFile): SourceFile {
    SourceFile(f.name, f.text)
  }
}
