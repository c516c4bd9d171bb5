/** Failure-carrying values shared by every component of the resume pipeline. */
module Common {

  datatype Option<+T> = None | Some(value: T)

  /** The exceptions the pipeline raises, one constructor per distinct raise site. */
  datatype Error =
    | MissingInput          // parser: the job file does not exist
    | ReadFailed            // parser: the job file exists but cannot be read as text
    | MalformedInput        // parser: fewer than two lines
    | TemplateNotFound      // template finder: no folder name contains the position
    | StagingFailed         // output handler: copying the template to <base>_Temp raised
    | MissingApiKey         // Gemini client: key unset or empty
    | MissingMainTex        // output handler: no main.tex in the temp folder
    | OutputDirFailed       // output handler: os.makedirs of output/pdf raised
    | CompilationFailed(errorLines: seq<string>)  // no main.pdf after both passes; the `!` lines of main.log
    | PdfCopyFailed         // output handler: shutil.copy2 of main.pdf raised

  datatype Result<+T> = Ok(value: T) | Err(error: Error)
}
