/**
 * The pure helpers of the ingestion path in src/lib/document-utils.ts: the MIME-type
 * dispatch of `extractTextFromFile`, `createDocumentsFromChunks`, and the rows that
 * `storeEmbeddings` builds for the `document_chunks` table, together with the
 * extract-chunk-build sequence of `processDocumentForRAG` up to the point where the
 * rows are handed to the database.
 */
module DocumentUtils {
  import opened Wrappers
  import opened JsString
  import opened ParagraphSplit
  import opened Chunker

  newtype byte = b: int | 0 <= b < 0x100

  // ---------------------------------------------------------------- extractTextFromFile

  /** The three MIME types whose bytes are decoded as UTF-8 text. */
  predicate IsTextMimeType(mimeType: string) {
    mimeType == "text/plain" || mimeType == "text/markdown" || mimeType == "application/json"
  }

  const PlaceholderHead: string := "Extracted text from "
  const PlaceholderTail: string :=
    " file. \nThis is placeholder text that would normally be extracted using specialized libraries.\n"
    + "In a production application, you would use libraries like:\n"
    + "- pdf-parse for PDF files\n"
    + "- mammoth for DOCX files\n"
    + "- html-to-text for HTML files"

  /** The text returned for every other MIME type; it names the type, right after the fixed head. */
  function Placeholder(mimeType: string): (r: string)
    ensures |r| == |PlaceholderHead| + |mimeType| + |PlaceholderTail|
    ensures r[..|PlaceholderHead|] == PlaceholderHead
    ensures r[|PlaceholderHead|..|PlaceholderHead| + |mimeType|] == mimeType
    ensures r[|PlaceholderHead| + |mimeType|..] == PlaceholderTail
  {
    PlaceholderHead + mimeType + PlaceholderTail
  }

  /**
   * `extractTextFromFile(fileData, mimeType)`. `decode` stands for `TextDecoder.decode`
   * with the UTF-8 decoder; `None` means that the call threw, which the source catches
   * and answers with the empty string.
   */
  function ExtractTextFromFile(fileData: seq<byte>, mimeType: string, decode: seq<byte> -> Option<string>): (r: string)
    ensures IsTextMimeType(mimeType) ==> r == "" || decode(fileData) == Some(r)
    ensures !IsTextMimeType(mimeType) ==> r == Placeholder(mimeType)
  {
    if IsTextMimeType(mimeType) then
      match decode(fileData)
      case Some(text) => text
      case None => ""
    else Placeholder(mimeType)
  }

  /** Plain text, Markdown and JSON come back exactly as decoded, and as `''` if decoding throws. */
  lemma ExtractTextType(fileData: seq<byte>, mimeType: string, decode: seq<byte> -> Option<string>)
    requires IsTextMimeType(mimeType)
    ensures decode(fileData).Some? ==> ExtractTextFromFile(fileData, mimeType, decode) == decode(fileData).value
    ensures decode(fileData).None? ==> ExtractTextFromFile(fileData, mimeType, decode) == ""
  {
  }

  /** Every other type gets the placeholder, whatever the bytes, and never reaches the decoder. */
  lemma ExtractOtherType(fileData: seq<byte>, mimeType: string, decode: seq<byte> -> Option<string>,
                         otherData: seq<byte>, otherDecode: seq<byte> -> Option<string>)
    requires !IsTextMimeType(mimeType)
    ensures ExtractTextFromFile(fileData, mimeType, decode) == Placeholder(mimeType)
    ensures ExtractTextFromFile(fileData, mimeType, decode) == ExtractTextFromFile(otherData, mimeType, otherDecode)
  {
  }

  /**
   * The result is empty, which makes `processDocumentForRAG` give up, exactly when a text
   * type failed to decode or decoded to nothing; the placeholder is never empty.
   */
  lemma ExtractEmptyIff(fileData: seq<byte>, mimeType: string, decode: seq<byte> -> Option<string>)
    ensures ExtractTextFromFile(fileData, mimeType, decode) == ""
      <==> IsTextMimeType(mimeType) && (decode(fileData) == None || decode(fileData) == Some(""))
  {
    assert |Placeholder(mimeType)| >= |PlaceholderHead| > 0;
  }

  /** The placeholder names its MIME type: two types get the same placeholder only if they are equal. */
  lemma PlaceholderDeterminesType(m1: string, m2: string)
    requires Placeholder(m1) == Placeholder(m2)
    ensures m1 == m2
  {
    var h, t := |PlaceholderHead|, |PlaceholderTail|;
    assert |m1| == |m2|;
    assert m1 == Placeholder(m1)[h..h + |m1|];
    assert m2 == Placeholder(m2)[h..h + |m2|];
  }

  // ---------------------------------------------------------------- createDocumentsFromChunks

  /** The `metadata` argument of `createDocumentsFromChunks`. */
  datatype SourceMetadata = SourceMetadata(docId: string, docName: string, source: string)

  /** `{...metadata, chunkId: i, chunkTotal: chunks.length}`. */
  datatype ChunkMetadata = ChunkMetadata(docId: string, docName: string, source: string, chunkId: nat, chunkTotal: nat)

  /** A LangChain `Document`: the chunk text and its metadata. */
  datatype ChunkDocument = ChunkDocument(pageContent: string, metadata: ChunkMetadata)

  /** `chunks.map((chunk, i) => new Document(...))`: one document per chunk, in order. */
  function CreateDocumentsFromChunks(chunks: seq<string>, metadata: SourceMetadata): (docs: seq<ChunkDocument>)
    ensures |docs| == |chunks|
    ensures forall i :: 0 <= i < |docs| ==>
      && docs[i].pageContent == chunks[i]
      && docs[i].metadata == ChunkMetadata(metadata.docId, metadata.docName, metadata.source, i, |chunks|)
  {
    seq(|chunks|, i requires 0 <= i < |chunks| =>
      ChunkDocument(chunks[i], ChunkMetadata(metadata.docId, metadata.docName, metadata.source, i, |chunks|)))
  }

  /** The texts of a list of documents, in order. */
  function PageContents(docs: seq<ChunkDocument>): (texts: seq<string>)
    ensures |texts| == |docs|
  {
    if docs == [] then [] else [docs[0].pageContent] + PageContents(docs[1..])
  }

  lemma {:induction false} PageContentsAt(docs: seq<ChunkDocument>, i: nat)
    requires i < |docs|
    ensures PageContents(docs)[i] == docs[i].pageContent
  {
    if i > 0 {
      PageContentsAt(docs[1..], i - 1);
    }
  }

  /** The documents hold the chunks and nothing else: reading back their texts gives the chunks. */
  lemma DocumentsRoundTrip(chunks: seq<string>, metadata: SourceMetadata)
    ensures PageContents(CreateDocumentsFromChunks(chunks, metadata)) == chunks
  {
    var docs := CreateDocumentsFromChunks(chunks, metadata);
    forall i | 0 <= i < |chunks|
      ensures PageContents(docs)[i] == chunks[i]
    {
      PageContentsAt(docs, i);
    }
  }

  /** Chunk numbers are the positions 0 .. n-1, so no two documents of one call share one. */
  lemma ChunkIdsDistinct(chunks: seq<string>, metadata: SourceMetadata, i: nat, j: nat)
    requires i < j < |chunks|
    ensures CreateDocumentsFromChunks(chunks, metadata)[i].metadata.chunkId
      != CreateDocumentsFromChunks(chunks, metadata)[j].metadata.chunkId
  {
  }

  // ---------------------------------------------------------------- rows of document_chunks

  /** A row inserted into the `document_chunks` table. */
  datatype ChunkRow = ChunkRow(id: string, documentId: string, content: string, metadata: ChunkMetadata)

  /** The primary key of the `i`-th chunk of a document: `${documentId}-chunk-${i}`. */
  function RowId(documentId: string, i: nat): (r: string)
    ensures |documentId| < |r| && r[..|documentId|] == documentId
    ensures |r| == |documentId| + 7 + |Decimal(i)| && r[|documentId|..|documentId| + 7] == "-chunk-"
    ensures TrailingDigits(r) == |Decimal(i)| <= |r|
    ensures r[|r| - |Decimal(i)|..] == Decimal(i) && DecimalValue(r[|r| - |Decimal(i)|..]) == i
  {
    var x := documentId + "-chunk-";
    DigitRunOfId(x, Decimal(i));
    DecimalRoundTrip(i);
    assert (x + Decimal(i))[|x|..] == Decimal(i);
    x + Decimal(i)
  }

  /** The argument of the `insert` in `storeEmbeddings`: one row per document, in order. */
  function ChunkRows(docs: seq<ChunkDocument>, documentId: string): (rows: seq<ChunkRow>)
    ensures |rows| == |docs|
    ensures forall i :: 0 <= i < |rows| ==>
      rows[i] == ChunkRow(RowId(documentId, i), documentId, docs[i].pageContent, docs[i].metadata)
  {
    seq(|docs|, i requires 0 <= i < |docs| =>
      ChunkRow(RowId(documentId, i), documentId, docs[i].pageContent, docs[i].metadata))
  }

  /**
   * Row ids never collide: the id determines both the document and the chunk number,
   * because the number is all digits and is preceded by a hyphen.
   */
  lemma RowIdInjective(d1: string, i: nat, d2: string, j: nat)
    requires RowId(d1, i) == RowId(d2, j)
    ensures d1 == d2 && i == j
  {
    var x1, x2 := d1 + "-chunk-", d2 + "-chunk-";
    var n1, n2 := Decimal(i), Decimal(j);
    var s := x1 + n1;
    assert s == x2 + n2;
    DigitRunOfId(x1, n1);
    DigitRunOfId(x2, n2);
    assert n1 == s[|x1|..] == n2;
    DecimalInjective(i, j);
    assert x1 == s[..|x1|] == x2;
    assert d1 == x1[..|d1|] == x2[..|d2|] == d2;
  }

  /** Length of the run of decimal digits that ends `s`. */
  function TrailingDigits(s: string): (n: nat)
    ensures n <= |s|
  {
    if s != [] && IsDigit(s[|s| - 1]) then 1 + TrailingDigits(s[..|s| - 1]) else 0
  }

  lemma {:induction false} DigitRunOfId(x: string, n: string)
    requires x != [] && !IsDigit(x[|x| - 1])
    requires forall i :: 0 <= i < |n| ==> IsDigit(n[i])
    ensures TrailingDigits(x + n) == |n|
  {
    if n != [] {
      DigitRunOfId(x, n[..|n| - 1]);
      assert (x + n)[..|x + n| - 1] == x + n[..|n| - 1];
    } else {
      assert x + n == x;
    }
  }

  /** The rows of one document have pairwise distinct ids and all point back to that document. */
  lemma ChunkRowIdsDistinct(docs: seq<ChunkDocument>, documentId: string)
    ensures forall i, j :: 0 <= i < j < |docs| ==> ChunkRows(docs, documentId)[i].id != ChunkRows(docs, documentId)[j].id
    ensures forall i :: 0 <= i < |docs| ==> ChunkRows(docs, documentId)[i].documentId == documentId
  {
    var rows := ChunkRows(docs, documentId);
    forall i, j | 0 <= i < j < |docs|
      ensures rows[i].id != rows[j].id
    {
      assert DecimalValue(rows[i].id[|rows[i].id| - TrailingDigits(rows[i].id)..]) == i;
      assert DecimalValue(rows[j].id[|rows[j].id| - TrailingDigits(rows[j].id)..]) == j;
    }
  }

  // ---------------------------------------------------------------- processDocumentForRAG

  /** The `fileInfo` argument of `processDocumentForRAG`. */
  datatype FileInfo = FileInfo(id: string, name: string, mimeType: string, path: string)

  /**
   * `processDocumentForRAG` up to the insert: extract the text, stop if it is empty, chunk
   * it, wrap the chunks as documents and build the rows. `None` is the early `false`.
   */
  method PrepareChunkRows(fileData: seq<byte>, fileInfo: FileInfo, decode: seq<byte> -> Option<string>)
    returns (rows: Option<seq<ChunkRow>>)
    ensures var text := ExtractTextFromFile(fileData, fileInfo.mimeType, decode);
      && (rows.None? <==> text == "")
      && (rows.Some? ==>
        && |rows.value| == |ChunkParagraphs(Paragraphs(text))|
        && forall i :: 0 <= i < |rows.value| ==>
          && rows.value[i].id == RowId(fileInfo.id, i)
          && rows.value[i].documentId == fileInfo.id
          && rows.value[i].content == ChunkParagraphs(Paragraphs(text))[i]
          && rows.value[i].metadata == ChunkMetadata(fileInfo.id, fileInfo.name, fileInfo.path, i, |rows.value|)
          && IsTrimmed(rows.value[i].content))
  {
    var text := ExtractTextFromFile(fileData, fileInfo.mimeType, decode);
    if text == "" {
      return None;
    }
    var chunks := ChunkText(text);
    var documents := CreateDocumentsFromChunks(chunks, SourceMetadata(fileInfo.id, fileInfo.name, fileInfo.path));
    rows := Some(ChunkRows(documents, fileInfo.id));
  }
}
