/**
 * The validation gate at the top of the `/analyze` handler: four checks on
 * the uploaded form field, run in a fixed order, the first failing one
 * deciding the 400 reply.
 */
module Upload {
  import opened Text

  /** The `contract` field of the multipart form: absent, or a file with its name and the length of its content. */
  datatype Upload = Missing | File(filename: string, size: nat)

  datatype Gate = Accept | Reject(status: nat, message: string)

  const BadRequest: nat := 400

  const NoFileMessage := "No file uploaded. Please select a PDF."
  const NoSelectionMessage := "No file selected."
  const NotPdfMessage := "Only PDF files are supported."
  const EmptyFileMessage := "The PDF file is empty. Please upload a real contract."

  /** `filename.lower().endswith('.pdf')`. */
  predicate IsPdfName(filename: string)
  {
    EndsWith(Lower(filename), ".pdf")
  }

  function Validate(u: Upload): (g: Gate)
    ensures g.Accept? <==> u.File? && u.filename != "" && IsPdfName(u.filename) && u.size > 0
    ensures g.Reject? ==> g.status == BadRequest
  {
    if u.Missing? then Reject(BadRequest, NoFileMessage)
    else if u.filename == "" then Reject(BadRequest, NoSelectionMessage)
    else if !IsPdfName(u.filename) then Reject(BadRequest, NotPdfMessage)
    else if u.size == 0 then Reject(BadRequest, EmptyFileMessage)
    else Accept
  }

  /**
   * The checks run in order and the first failing one decides the message:
   * each message comes back exactly when the earlier checks pass and its
   * own check fails.
   */
  lemma ValidationOrder(u: Upload)
    ensures Validate(u) == Reject(BadRequest, NoFileMessage) <==> u.Missing?
    ensures Validate(u) == Reject(BadRequest, NoSelectionMessage) <==> u.File? && u.filename == ""
    ensures Validate(u) == Reject(BadRequest, NotPdfMessage)
            <==> u.File? && u.filename != "" && !IsPdfName(u.filename)
    ensures Validate(u) == Reject(BadRequest, EmptyFileMessage)
            <==> u.File? && u.filename != "" && IsPdfName(u.filename) && u.size == 0
  {
  }

  /** An empty file name is reported as such whatever the content is. */
  lemma EmptyFilenameRejected(size: nat)
    ensures Validate(File("", size)) == Reject(BadRequest, NoSelectionMessage)
  {
  }

  /** The extension test, character by character: a dot and then `p`, `d`, `f` in either case, at the very end. */
  lemma PdfNameChars(filename: string)
    ensures IsPdfName(filename) <==>
      |filename| >= 4 && filename[|filename| - 4] == '.'
      && (filename[|filename| - 3] == 'p' || filename[|filename| - 3] == 'P')
      && (filename[|filename| - 2] == 'd' || filename[|filename| - 2] == 'D')
      && (filename[|filename| - 1] == 'f' || filename[|filename| - 1] == 'F')
  {
    var low := Lower(filename);
    var n := |filename|;
    if n >= 4 {
      var tail := low[n - 4..];
      assert tail[0] == low[n - 4] && tail[1] == low[n - 3] && tail[2] == low[n - 2] && tail[3] == low[n - 1];
      if tail != ".pdf" {
        assert tail[0] != '.' || tail[1] != 'p' || tail[2] != 'd' || tail[3] != 'f';
      }
    }
  }

  lemma PdfNameExamples()
    ensures IsPdfName("X.PDF") && IsPdfName(".pdf") && IsPdfName("lease.Pdf")
    ensures !IsPdfName("x.pdf.txt") && !IsPdfName("pdf") && !IsPdfName("scan.pd")
  {
    PdfNameChars("X.PDF");
    PdfNameChars(".pdf");
    PdfNameChars("lease.Pdf");
    PdfNameChars("x.pdf.txt");
    PdfNameChars("pdf");
    PdfNameChars("scan.pd");
  }
}
