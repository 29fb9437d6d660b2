# Product-block segmentation and question loop of the Forever Living catalogue assistant

The script `Rag-Estudo/main.py` answers questions about a PDF product
catalogue. Its own logic, modelled here, is:

- the text fragments of the PDF are joined with line feeds;
- the text is cut, with `re.split` on the zero-width lookahead
  `(?=\n?Forever\s[A-Z][^\n]+®)`, in front of every product heading;
- every piece is stripped and kept as a `Document` only when it is longer
  than 100 characters and contains `"Forever"`;
- the interactive loop stops on `sair`, `exit` or `quit` (in any case); for
  any other line it joins the retrieved documents into a context, shows its
  first 1000 characters and builds the grounding prompt.

Modules:

- `Text` (`text.dfy`): Python's `str.isspace` (the whitespace set of `\s`
  as well), `strip`, `lstrip`, `rstrip`, substring `in`, `str.join`, and
  ASCII `lower`.
- `Segmenter` (`segmenter.dfy`): the heading lookahead as a decidable
  predicate (`CutAt`), the cut positions (`Cuts`) and pieces (`Split`),
  the filter (`IsRecord`, `Kept`, `Products`) and the filter loop
  (`BuildProductDocs`).
- `Interaction` (`interaction.dfy`): the exit test, the preview, the prompt,
  one answered question (`Turn`, `Respond`), the loop as a two-state machine
  (`Step`, `Run`) and the loop itself (`InteractionLoop`).
- `Pipeline` (`pipeline.dfy`): start-up up to the product documents — the
  API-key check and the segmentation (`Ingest`).

The split follows Python 3.7+ semantics for empty matches: the pattern is
tried at every position; an empty match at position `p` only forbids
another empty match at `p` itself. So a match at position 0 gives an empty
first piece, and a heading preceded by a line feed matches both at the line
feed and right after it, leaving a one-character `"\n"` piece that the
filter drops (`LoneLineFeedPiece`, for every text).

The retriever (FAISS top-10 search) is a parameter `retrieve` of the loop.
The lines typed by the user are a parameter `inputs`. The value of
`GEMINI_API_KEY` is a parameter of `Ingest`. The PDF loader's output is the
parameter `fragments`.

## Model

| member | source | states |
|---|---|---|
| Text.JoinLength | Rag-Estudo/main.py:23 | the joined text is as long as all fragments together plus one line feed between each pair of neighbours |
| Text.JoinAppend | Rag-Estudo/main.py:23 | joining a list equals joining its two halves separately and gluing them with one separator |
| Text.JoinHead | Rag-Estudo/main.py:23 | the joined text starts with the first fragment, followed by the separator when more fragments come |
| Text.JoinPartAt | Rag-Estudo/main.py:23 | every fragment appears verbatim, in order, at its offset in the joined text, and each but the last is followed by the separator |
| Text.JoinOffsetNext | Rag-Estudo/main.py:23 | the offset of the next fragment is the offset of this one plus its length plus one separator |
| Segmenter.TrademarkAfterIff | Rag-Estudo/main.py:26 | the scan for `[^\n]+®` holds exactly when a `®` occurs later on the same line with at least one character before it |
| Segmenter.TrademarkShift | Rag-Estudo/main.py:26 | the `[^\n]+®` test at an index gives the same answer on any suffix that still contains that index |
| Segmenter.HeadingShift | Rag-Estudo/main.py:26 | whether `Forever\s[A-Z][^\n]+®` matches at an index depends only on the text from that index on |
| Segmenter.Cuts | Rag-Estudo/main.py:26 | the cut list is strictly increasing, contains only positions where the lookahead succeeds, and contains every such position |
| Segmenter.CutsSkip | Rag-Estudo/main.py:26 | a stretch of text without heading positions adds no cut |
| Segmenter.Pieces | Rag-Estudo/main.py:26 | cutting at k positions gives k + 1 pieces |
| Segmenter.PiecesConcat | Rag-Estudo/main.py:26 | the pieces of a suffix concatenate back to that suffix |
| Segmenter.SplitConcat | Rag-Estudo/main.py:26 | the pieces of the split concatenate back to the whole text: the lookahead loses and duplicates nothing |
| Segmenter.PiecesAt | Rag-Estudo/main.py:26 | piece i lies between boundaries i and i + 1 of the cut list |
| Segmenter.SplitAt | Rag-Estudo/main.py:26 | piece i of the split is the text between boundary i and boundary i + 1 (start, every cut position, end) |
| Segmenter.SplitPiecesAreHeadingBlocks | Rag-Estudo/main.py:26 | every piece after the first starts at a heading position and is non-empty; no heading position lies strictly inside any piece |
| Segmenter.BetweenNeighbours | Rag-Estudo/main.py:26 | a position strictly between two neighbouring cuts is not a cut |
| Segmenter.SplitFirstPiece | Rag-Estudo/main.py:26 | the first piece is empty, with more pieces after it, exactly when the text starts at a heading position |
| Segmenter.SplitWithoutHeadings | Rag-Estudo/main.py:26 | a text with no heading position splits into itself alone |
| Segmenter.CutsAroundHeading | Rag-Estudo/main.py:26 | a line feed followed by a heading, with no heading position after it, gives two adjacent cuts: at the line feed and right after it |
| Segmenter.PiecesOfTwoCuts | Rag-Estudo/main.py:26 | two adjacent cuts leave a one-character piece between the text before them and the text after them |
| Segmenter.SplitAfterPreamble | Rag-Estudo/main.py:26 | a heading on its own line after a preamble splits into the preamble, a lone `"\n"` piece and the heading block |
| Segmenter.NextCut | Rag-Estudo/main.py:26 | when both a line feed position and the heading right after it are cuts, they are neighbouring entries of the cut list |
| Segmenter.LoneLineFeedPiece | Rag-Estudo/main.py:26-33 | in any text, wherever a line feed stands in front of a heading, the split has a piece that is exactly that `"\n"`, and the filter drops it |
| Segmenter.LineFeedDropped | Rag-Estudo/main.py:31-33 | a lone line feed strips to the empty string and yields no document |
| Text.StripStartSpec | Rag-Estudo/main.py:31 | `lstrip` drops a run of whitespace and keeps a suffix that does not begin with whitespace |
| Text.StripEndSpec | Rag-Estudo/main.py:31 | `rstrip` drops a run of whitespace and keeps a prefix that does not end with whitespace |
| Text.StripMargins | Rag-Estudo/main.py:31 | `strip` returns a slice of its input with no whitespace at either end, and everything it removed was whitespace |
| Text.StripSurrounded | Rag-Estudo/main.py:31 | a trimmed string between any whitespace margins strips back to itself, so the result of `strip` is uniquely determined |
| Text.StripStartSurrounded | Rag-Estudo/main.py:31 | `lstrip` skips any leading run of whitespace |
| Text.StripEndSurrounded | Rag-Estudo/main.py:31 | `rstrip` of a string ending in a non-space, followed by whitespace, gives back that string |
| Text.StripAllSpace | Rag-Estudo/main.py:31 | a string made only of whitespace strips to the empty string |
| Text.StripIdempotent | Rag-Estudo/main.py:31 | stripping twice is the same as stripping once |
| Text.ContainsAt | Rag-Estudo/main.py:32 | an occurrence of the substring at any index makes `in` true |
| Text.ContainsWitness | Rag-Estudo/main.py:32 | when `in` is true there is an index where the substring occurs |
| Text.ContainsIff | Rag-Estudo/main.py:32 | `t in s` holds exactly when `t` occurs in `s` at some index |
| Segmenter.BuildProductDocs | Rag-Estudo/main.py:29-33 | the loop's list is the filter applied to the pieces in order (invariant: the filter of the pieces seen so far); it has at most one document per piece |
| Segmenter.GatherAppend | Rag-Estudo/main.py:29-33 | what the loop collects from two consecutive runs of pieces is the concatenation of what it collects from each |
| Segmenter.GatherMembership | Rag-Estudo/main.py:29-33 | an item is collected exactly when some piece contributes it |
| Segmenter.ProductsAppend | Rag-Estudo/main.py:29-33 | the documents of consecutive runs of pieces come out in piece order |
| Segmenter.ProductsMembership | Rag-Estudo/main.py:29-33 | a document is kept exactly when it is the stripped text of some piece that is longer than 100 characters and contains "Forever" |
| Segmenter.ProductsAreRecords | Rag-Estudo/main.py:31-33 | every kept document is longer than 100 characters, contains "Forever", has no surrounding whitespace and is unchanged by another strip |
| Segmenter.HundredCharactersDropped | Rag-Estudo/main.py:32 | a piece whose stripped text is exactly 100 characters is dropped, whatever it contains |
| Segmenter.HundredAndOneCharactersKept | Rag-Estudo/main.py:32 | a piece whose stripped text has 101 characters and contains "Forever" is kept, stripped |
| Segmenter.OneRecordAfterPreamble | Rag-Estudo/main.py:26-33 | short junk, a line feed, then one heading block that passes the filter yields exactly one document, the stripped heading block |
| Pipeline.SegmentSound | Rag-Estudo/main.py:23-33 | for any fragments, the split pieces rebuild the joined text and every document is a stripped piece that passes the filter |
| Pipeline.Ingest | Rag-Estudo/main.py:13-33 | a missing or empty key fails with the `ValueError` message before the document is touched; otherwise the result is the join, split and filter of the fragments |
| Interaction.IsExitIff | Rag-Estudo/main.py:54 | the loop stops exactly on "sair", "exit" or "quit" spelled with any mix of upper and lower case |
| Interaction.ExitKeywordExamples | Rag-Estudo/main.py:54 | keywords in mixed or upper case stop the loop |
| Interaction.NotExitExamples | Rag-Estudo/main.py:54 | a keyword with a blank around it, a shorter word or an empty line does not stop the loop, since the line is not stripped |
| Interaction.ContextHoldsDocuments | Rag-Estudo/main.py:58 | every retrieved document's text appears in the joined context |
| Interaction.Preview | Rag-Estudo/main.py:59 | the preview is a prefix of the context, of length the smaller of 1000 and the context's length |
| Interaction.PromptLayout | Rag-Estudo/main.py:61-71 | the prompt contains the context right after the instruction and the question right before "RESPOSTA:", both verbatim |
| Interaction.PromptInjective | Rag-Estudo/main.py:61-71 | with the context fixed, the prompt determines the question, and with the question fixed it determines the context |
| Interaction.TurnOutputs | Rag-Estudo/main.py:57-71 | for one question, the preview shown is a prefix of the context of at most 1000 characters, the prompt sent contains the context and the question, and the context contains every retrieved text |
| Interaction.RunStopsAtFirstExit | Rag-Estudo/main.py:52-71 | the loop answers, in order and with a retrieval each, exactly the lines before the first exit keyword, and stops there; with no keyword it answers every line |
| Interaction.RunAfterExit | Rag-Estudo/main.py:54-55 | after an exit keyword no later line changes the outcome |
| Interaction.ExitOnFirstLine | Rag-Estudo/main.py:54-55 | an exit keyword on the first line ends the loop with no retrieval at all |
| Interaction.InteractionLoop | Rag-Estudo/main.py:52-71 | the loop's final state is the state machine run on the lines; it reads up to and including the first exit keyword, or every line when there is none; it sends one prompt per answered line, in order |

## Left out

- Loading `.env` and configuring the Gemini client (lines 12, 16): environment I/O. Only the check that the key is present (lines 13-15) is modelled.
- The PDF loader (lines 19-20): an external library; the model takes its fragments as a list of strings.
- The `RecursiveCharacterTextSplitter` chunking (lines 36-41): its size, overlap and separator behaviour lives in LangChain code that is not part of this model.
- Embeddings, the FAISS index and the top-10 retriever (lines 44-48, 57): vector arithmetic and foreign calls; the retriever is the parameter `retrieve`.
- The Gemini call and the stripping of its answer (lines 49, 73-74): a network client; the prompt it is given is `Turn.Sent()`.
- Console input and output (lines 53, 59, 74): the lines read are the parameter `inputs` and the printed preview is `Turn.Shown()`. When the lines run out without an exit keyword the script's `input()` raises `EOFError`; the model ends in the `Awaiting` state instead.
- Interaction.InteractionLoop: assumes that retrieval and generation always return. Nothing in lines 52-74 is inside a `try`, so in the script an exception from `retriever.invoke` (line 57), `model.generate_content` (line 73) or `resposta.text` (line 74, a `ValueError` on a blocked answer) ends the loop and the program at that turn. The model answers every line before the first exit keyword instead.
- Interaction.RunStopsAtFirstExit: the same assumption. "Every line is answered when there is no keyword" holds only when no retrieval or generation call raises.
- Interaction.IsExitIff: `str.lower` is modelled on ASCII letters only. This loses nothing for the exit test, since no other character lowercases to a single ASCII letter of the three keywords.
- The whitespace set of `strip` and `\s` is Python's full `str.isspace` set; no other Unicode behaviour (normalisation, case folding) is modelled.
- The metadata of `Document` is not modelled; a document is its text.
