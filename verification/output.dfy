/** The output file of the tool. Every write in cli.ts goes through `fs.writeFileSync`
    (create or truncate, then write) or `fs.appendFileSync` (add at the end). */
module Output {

  class OutputFile {
    /** The current contents of the file. */
    var text: string

    constructor ()
      ensures text == ""
    {
      text := "";
    }

    /** `fs.writeFileSync(outputFilePath, s)` */
    method Write(s: string)
      modifies this
      ensures text == s
    {
      text := s;
    }

    /** `fs.appendFileSync(outputFilePath, s)` */
    method Append(s: string)
      modifies this
      ensures text == old(text) + s
    {
      text := text + s;
    }
  }
}
