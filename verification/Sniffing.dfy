/**
 The type of an attachment by its first bytes: the shared detector and the allow-list of customer
 attachments. The listing of a ZIP archive and the check of UTF-8 are parameters.
 */
module Sniffing {
  import opened Wrappers

  type Bytes = seq<bv8>

  /** The member names of a ZIP archive, none for a broken one, and whether bytes are valid UTF-8. */
  datatype Libraries = Libraries(members: Bytes -> Option<set<string>>, isUtf8: Bytes -> bool)

  const PDF_MAGIC: Bytes := [0x25, 0x50, 0x44, 0x46, 0x2D]
  const ZIP_MAGIC: Bytes := [0x50, 0x4B, 0x03, 0x04]
  const EXE_MAGIC: Bytes := [0x4D, 0x5A]
  const JPEG_MAGIC: Bytes := [0xFF, 0xD8, 0xFF]
  const PNG_MAGIC: Bytes := [0x89, 0x50, 0x4E, 0x47, 0x0D, 0x0A, 0x1A, 0x0A]

  const PDF := "application/pdf"
  const DOCX := "application/vnd.openxmlformats-officedocument.wordprocessingml.document"
  const JPEG := "image/jpeg"
  const PNG := "image/png"
  const PLAIN := "text/plain"
  const EXECUTABLE := "application/x-msdownload"

  const DOCX_MEMBER := "word/document.xml"

  /** The type that the first bytes tell, if any; what begins like nothing known may be text. */
  function DetectContentType(lib: Libraries, raw: Bytes): Option<string> {
    if PDF_MAGIC <= raw then Some(PDF)
    else if EXE_MAGIC <= raw then Some(EXECUTABLE)
    else if JPEG_MAGIC <= raw then Some(JPEG)
    else if PNG_MAGIC <= raw then Some(PNG)
    else if ZIP_MAGIC <= raw then
      var names := lib.members(raw);
      if names.None? || DOCX_MEMBER !in names.value then None else Some(DOCX)
    else if lib.isUtf8(raw) then Some(PLAIN)
    else None
  }

  const ALLOWED_CONTENT_TYPES: set<string> := {PDF, DOCX, JPEG, PNG, PLAIN}

  const EXECUTABLE_REJECTED := "Executable binary rejected (MZ magic bytes detected)"
  const UNSUPPORTED :=
    "File does not match any supported attachment type (expected PDF, DOCX, JPEG, PNG, or UTF-8 plain text)"

  /** The detected type, if attachments may have it. */
  function Sniff(lib: Libraries, raw: Bytes): Result<string, string> {
    var detected := DetectContentType(lib, raw);
    if detected == Some(EXECUTABLE) then Err(EXECUTABLE_REJECTED)
    else if detected.None? || detected.value !in ALLOWED_CONTENT_TYPES then Err(UNSUPPORTED)
    else Ok(detected.value)
  }

  /** No content begins with two of the signatures, so the order of the checks does not matter. */
  lemma OneSignature(raw: Bytes, a: Bytes, b: Bytes)
    requires a in {PDF_MAGIC, ZIP_MAGIC, EXE_MAGIC, JPEG_MAGIC, PNG_MAGIC}
    requires b in {PDF_MAGIC, ZIP_MAGIC, EXE_MAGIC, JPEG_MAGIC, PNG_MAGIC}
    requires a <= raw && b <= raw
    ensures a == b
  {
    assert a[0] == raw[0] == b[0];
  }

  /** The first characters of the content, as bytes. */
  predicate Begins(raw: Bytes, magic: Bytes) {
    |raw| >= |magic| && raw[..|magic|] == magic
  }

  /**
   Which bytes are accepted, and as what. A text that begins with MZ is refused as an executable, and
   one that begins like a ZIP archive is no text either.
   */
  lemma SniffExactly(lib: Libraries, raw: Bytes)
    ensures Sniff(lib, raw) == Ok("application/pdf") <==> Begins(raw, [0x25, 0x50, 0x44, 0x46, 0x2D])
    ensures Sniff(lib, raw) == Ok("image/jpeg") <==> Begins(raw, [0xFF, 0xD8, 0xFF])
    ensures Sniff(lib, raw) == Ok("image/png") <==> Begins(raw, [0x89, 0x50, 0x4E, 0x47, 0x0D, 0x0A, 0x1A, 0x0A])
    ensures Sniff(lib, raw) == Ok("application/vnd.openxmlformats-officedocument.wordprocessingml.document") <==>
      Begins(raw, [0x50, 0x4B, 0x03, 0x04]) && lib.members(raw).Some? && "word/document.xml" in lib.members(raw).value
    ensures Sniff(lib, raw) == Ok("text/plain") <==>
      && lib.isUtf8(raw) && !Begins(raw, [0x4D, 0x5A]) && !Begins(raw, [0x50, 0x4B, 0x03, 0x04])
      && !Begins(raw, [0x25, 0x50, 0x44, 0x46, 0x2D]) && !Begins(raw, [0xFF, 0xD8, 0xFF])
      && !Begins(raw, [0x89, 0x50, 0x4E, 0x47, 0x0D, 0x0A, 0x1A, 0x0A])
    ensures Sniff(lib, raw) == Err(EXECUTABLE_REJECTED) <==> Begins(raw, [0x4D, 0x5A])
    ensures Sniff(lib, raw).Ok? ==> Sniff(lib, raw).value in {
      "application/pdf", "image/jpeg", "image/png", "text/plain",
      "application/vnd.openxmlformats-officedocument.wordprocessingml.document"}
  {
    TypesDiffer();
    forall magic | magic in {PDF_MAGIC, ZIP_MAGIC, EXE_MAGIC, JPEG_MAGIC, PNG_MAGIC} && magic <= raw
      ensures raw[0] == magic[0] && Begins(raw, magic)
    {
    }
  }

  lemma TypesDiffer()
    ensures |PDF| == 15 && |JPEG| == 10 && |PNG| == 9 && PLAIN == "text/plain" && |PLAIN| == 10 && |DOCX| == 71
    ensures |EXECUTABLE| == 24 && JPEG[0] == 'i' && PLAIN[0] == 't' && |EXECUTABLE_REJECTED| != |UNSUPPORTED|
    ensures EXECUTABLE !in ALLOWED_CONTENT_TYPES
  {
  }
}
