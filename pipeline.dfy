/** Start-up of the script, up to the product documents: the API key check,
    then segmentation of the fragments the PDF loader produced. */
module Pipeline {
  import opened Text
  import opened Segmenter

  datatype Option<T> = None | Some(value: T)

  datatype Result<T, E> = Success(value: T) | Failure(error: E)

  /** The message of the `ValueError` raised when the key is missing. */
  const MissingKeyMessage: string := "A chave GEMINI_API_KEY não foi encontrada no .env"

  /** Python's truth test on the value of `os.getenv`: unset and empty are
      both false. */
  predicate KeyPresent(apiKey: Option<string>)
  {
    apiKey.Some? && apiKey.value != ""
  }

  /** The script up to the list of product documents. Without a key it fails
      before touching the document; otherwise the fragments are joined with
      line feeds, split in front of every heading and filtered by the loop. */
  method Ingest(apiKey: Option<string>, fragments: seq<string>)
    returns (r: Result<seq<Document>, string>)
    ensures r.Failure? <==> !KeyPresent(apiKey)
    ensures r.Failure? ==> r.error == MissingKeyMessage
    ensures r.Success? ==> r.value == Segment(fragments)
  {
    if !KeyPresent(apiKey) {
      return Failure(MissingKeyMessage);
    }
    var textoCompleto := Join(fragments, "\n");
    var padroes := Split(textoCompleto);
    var produtosDocs := BuildProductDocs(padroes);
    return Success(produtosDocs);
  }

  /** What segmentation guarantees of the whole document: the split pieces
      give back the joined text, and every document is a stripped piece that
      passes the filter. */
  lemma SegmentSound(fragments: seq<string>)
    ensures Concat(Split(Join(fragments, "\n"))) == Join(fragments, "\n")
    ensures forall d :: d in Segment(fragments) ==>
      |d.pageContent| > MinRecordLength && Contains(d.pageContent, Marker) &&
      Trimmed(d.pageContent) && Strip(d.pageContent) == d.pageContent
    ensures forall d :: d in Segment(fragments) ==>
      exists i :: 0 <= i < |Split(Join(fragments, "\n"))| &&
        d.pageContent == Strip(Split(Join(fragments, "\n"))[i])
  {
    var texto := Join(fragments, "\n");
    SplitConcat(texto);
    ProductsAreRecords(Split(texto));
    forall d | d in Segment(fragments)
      ensures exists i :: 0 <= i < |Split(texto)| && d.pageContent == Strip(Split(texto)[i])
    {
      ProductsMembership(Split(texto), d);
    }
  }
}
