/** The widget's built-in knowledge of file types: the `FileType` enum that
    callers pass as accept tokens, and the curated table from extension to the
    MIME types a browser reports for it. */
module FileTypes {
  import opened Strings

  /** The exported enum of curated extensions. */
  datatype FileType = PDF | PNG | JPEG | JPG | XLSX | DOCX | MP3 | MP4 | WAV {

    /** The enum member's string value. */
    function Value(): string {
      match this
      case PDF => ".pdf"
      case PNG => ".png"
      case JPEG => ".jpeg"
      case JPG => ".jpg"
      case XLSX => ".xlsx"
      case DOCX => ".docx"
      case MP3 => ".mp3"
      case MP4 => ".mp4"
      case WAV => ".wav"
    }
  }

  /** The enum members in declaration order (`Object.values(FileType)`). */
  const AllFileTypes: seq<FileType> := [PDF, PNG, JPEG, JPG, XLSX, DOCX, MP3, MP4, WAV]

  /** The accept list used when the caller gives none: the enum's values in
      declaration order, which are exactly the curated extensions. */
  function DefaultAccept(): (tokens: seq<string>)
    ensures |tokens| == |AllFileTypes|
    ensures forall i :: 0 <= i < |tokens| ==> tokens[i] == AllFileTypes[i].Value()
    ensures forall t :: t in tokens <==> t in Table
  {
    var tokens := seq(|AllFileTypes|, i requires 0 <= i < |AllFileTypes| => AllFileTypes[i].Value());
    assert tokens == SupportedExtensions;
    SupportedListsMatchTable();
    tokens
  }

  /** The prefix shared by the two Office Open XML MIME types, written in
      pieces so that the verifier can inspect its characters. */
  const OfficeDocumentPrefix: string := "application/" + "vnd.openxmlformats-" + "officedocument."

  /** "application/vnd.openxmlformats-officedocument.spreadsheetml.sheet" */
  const XlsxMime: string := OfficeDocumentPrefix + "spreadsheetml.sheet"

  /** "application/vnd.openxmlformats-officedocument.wordprocessingml.document" */
  const DocxMime: string := OfficeDocumentPrefix + "wordprocessingml." + "document"

  /** `fileExtensionsToFileMimes`: each curated extension with the MIME types
      a browser may report for it. */
  const Table: map<string, seq<string>> := map[
    ".pdf" := ["application/pdf"],
    ".png" := ["image/png"],
    ".jpeg" := ["image/jpeg", "image/jpg"],
    ".jpg" := ["image/jpeg", "image/jpg"],
    ".xlsx" := [XlsxMime],
    ".docx" := [DocxMime],
    ".mp3" := ["audio/mp3", "audio/mpeg"],
    ".mp4" := ["video/mp4"],
    ".wav" := ["audio/wav"]
  ]

  /** `Object.keys(fileExtensionsToFileMimes)`, in the record's order. */
  const SupportedExtensions: seq<string> :=
    [".pdf", ".png", ".jpeg", ".jpg", ".xlsx", ".docx", ".mp3", ".mp4", ".wav"]

  /** `Object.values(fileExtensionsToFileMimes).flat(1)`, in the record's order. */
  const SupportedMimes: seq<string> := [
    "application/pdf", "image/png", "image/jpeg", "image/jpg", "image/jpeg", "image/jpg",
    XlsxMime, DocxMime, "audio/mp3", "audio/mpeg", "video/mp4", "audio/wav"
  ]

  /** The key list and the flattened value list are exactly the table's keys
      and the union of its values. */
  lemma SupportedListsMatchTable()
    ensures forall k :: k in SupportedExtensions <==> k in Table
    ensures forall m :: m in SupportedMimes <==> exists k :: k in Table && m in Table[k]
  {
    forall m | m in SupportedMimes
      ensures exists k :: k in Table && m in Table[k]
    {
      var i :| 0 <= i < |SupportedMimes| && SupportedMimes[i] == m;
      var k := [".pdf", ".png", ".jpeg", ".jpg", ".jpg", ".jpg", ".xlsx", ".docx", ".mp3", ".mp3", ".mp4", ".wav"][i];
      assert k in Table && m in Table[k];
    }
  }

  /** The two Office Open XML MIME types are lower-case and have a slash. */
  lemma OfficeMimeShapes()
    ensures '/' in XlsxMime && IsLower(XlsxMime)
    ensures '/' in DocxMime && IsLower(DocxMime)
  {
    var app := "application/";
    assert app[11] == '/';
    LowerConcat(app, "vnd.openxmlformats-");
    LowerConcat(app + "vnd.openxmlformats-", "officedocument.");
    assert OfficeDocumentPrefix[11] == '/';
    LowerConcat(OfficeDocumentPrefix, "spreadsheetml.sheet");
    assert XlsxMime[11] == '/';
    LowerConcat(OfficeDocumentPrefix, "wordprocessingml.");
    LowerConcat(OfficeDocumentPrefix + "wordprocessingml.", "document");
    assert DocxMime[11] == '/';
  }

  /** The curated extensions are lower-case and have no slash. */
  lemma KeyShapes()
    ensures forall k :: k in Table ==> '/' !in k && IsLower(k)
  {
    SupportedListsMatchTable();
    forall i | 0 <= i < |SupportedExtensions|
      ensures '/' !in SupportedExtensions[i] && IsLower(SupportedExtensions[i])
    {
    }
  }

  /** The short curated MIME types are lower-case and have a slash. */
  lemma ShortMimeShapes()
    ensures forall m :: m in SupportedMimes && m != XlsxMime && m != DocxMime ==> '/' in m && IsLower(m)
  {
    assert "application/pdf"[11] == '/';
    assert "image/png"[5] == '/';
    assert "image/jpeg"[5] == '/';
    assert "image/jpg"[5] == '/';
    assert "audio/mp3"[5] == '/';
    assert "audio/mpeg"[5] == '/';
    assert "video/mp4"[5] == '/';
    assert "audio/wav"[5] == '/';
  }

  /** Every curated extension is lower-case and has no slash; every curated
      MIME type is lower-case and has one. */
  lemma TableShapes()
    ensures forall k :: k in Table ==> '/' !in k && IsLower(k)
    ensures forall m :: m in SupportedMimes ==> '/' in m && IsLower(m)
  {
    OfficeMimeShapes();
    ShortMimeShapes();
    KeyShapes();
  }
}
