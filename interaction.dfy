/** The question-answering loop: each line read is either an exit keyword,
    which ends the loop, or a question, for which the retrieved documents
    are joined into a context, a preview of it is shown and a grounding
    prompt is assembled for the language model. */
module Interaction {
  import opened Text
  import opened Segmenter

  /** The words that end the loop, compared after lowercasing. */
  const ExitKeywords: seq<string> := ["sair", "exit", "quit"]

  /** How many characters of the context the loop shows before answering. */
  const PreviewLength: nat := 1000

  /** The exit test of the loop: the lowercased line is one of the keywords.
      The line is not stripped first. */
  predicate IsExit(pergunta: string)
  {
    Lower(pergunta) in ExitKeywords
  }

  /** `line` spells `word` with each letter in either case: every character
      is the one of `word` or an upper-case ASCII letter 32 code points below
      it. */
  predicate SpelledAs(line: string, word: string)
  {
    |line| == |word| &&
    forall k :: 0 <= k < |line| ==>
      line[k] == word[k] || ('A' <= line[k] <= 'Z' && (line[k] as int) + 32 == word[k] as int)
  }

  /** The exit test, stated without lowercasing: the line is one of the three
      keywords written in any mix of upper and lower case. */
  lemma IsExitIff(pergunta: string)
    ensures IsExit(pergunta) <==>
      SpelledAs(pergunta, "sair") || SpelledAs(pergunta, "exit") || SpelledAs(pergunta, "quit")
  {
    forall w | w in ExitKeywords
      ensures Lower(pergunta) == w <==> SpelledAs(pergunta, w)
    {
      if SpelledAs(pergunta, w) {
        assert forall k :: 0 <= k < |w| ==> Lower(pergunta)[k] == w[k];
      }
      if Lower(pergunta) == w {
        forall k | 0 <= k < |w|
          ensures pergunta[k] == w[k] || ('A' <= pergunta[k] <= 'Z' && (pergunta[k] as int) + 32 == w[k] as int)
        {
          assert Lower(pergunta)[k] == LowerChar(pergunta[k]);
        }
      }
    }
  }

  /** The keywords are matched in any case. */
  lemma ExitKeywordExamples()
    ensures IsExit("Sair") && IsExit("EXIT") && IsExit("qUiT")
  {
    assert Lower("Sair") == "sair";
    assert Lower("EXIT") == "exit";
    assert Lower("qUiT") == "quit";
  }

  /** Lowercasing keeps the length, so a keyword with a blank around it, or a
      shorter word, does not end the loop: the line is not stripped first. */
  lemma NotExitExamples()
    ensures !IsExit("sair ") && !IsExit(" quit") && !IsExit("sai") && !IsExit("")
  {
    assert |Lower("sair ")| == 5 && |Lower(" quit")| == 5 && |Lower("sai")| == 3;
  }

  /** The text the loop shows: at most the first 1000 characters of the
      context (Python's `contexto[:1000]`). */
  function Preview(contexto: string): (r: string)
    ensures r <= contexto
    ensures |r| == if |contexto| <= PreviewLength then |contexto| else PreviewLength
  {
    if |contexto| <= PreviewLength then contexto else contexto[..PreviewLength]
  }

  const PromptHead: string :=
    "\nVocê é um assistente especializado no catálogo de produtos da Forever Living.\n"
    + "Responda **com base apenas no conteúdo abaixo**, sem inventar informações externas.\n"
    + "\nCONTEÚDO:\n"
  const PromptMiddle: string := "\n\nPERGUNTA:\n"
  const PromptTail: string := "\n\nRESPOSTA:"

  /** The grounding prompt sent to the language model: the instruction, the
      context and the question. */
  function Prompt(contexto: string, pergunta: string): string
  {
    PromptHead + contexto + PromptMiddle + pergunta + PromptTail
  }

  /** The prompt holds the context and the question verbatim, each at a
      fixed place: the context right after the instruction, the question
      right before the closing "RESPOSTA:" line. */
  lemma PromptLayout(contexto: string, pergunta: string)
    ensures |Prompt(contexto, pergunta)| ==
      |PromptHead| + |contexto| + |PromptMiddle| + |pergunta| + |PromptTail|
    ensures Prompt(contexto, pergunta)[|PromptHead|..|PromptHead| + |contexto|] == contexto
    ensures Prompt(contexto, pergunta)[|PromptHead| + |contexto| + |PromptMiddle|..
              |Prompt(contexto, pergunta)| - |PromptTail|] == pergunta
    ensures Contains(Prompt(contexto, pergunta), contexto)
    ensures Contains(Prompt(contexto, pergunta), pergunta)
  {
    var p := Prompt(contexto, pergunta);
    var c0 := |PromptHead|;
    var q0 := c0 + |contexto| + |PromptMiddle|;
    assert p[c0..c0 + |contexto|] == contexto;
    assert p[q0..q0 + |pergunta|] == pergunta;
    ContainsAt(p, contexto, c0);
    ContainsAt(p, pergunta, q0);
  }

  /** For a given context, different questions give different prompts, and
      for a given question, different contexts do. */
  lemma PromptInjective(c1: string, q1: string, c2: string, q2: string)
    requires Prompt(c1, q1) == Prompt(c2, q2)
    requires c1 == c2 || q1 == q2
    ensures c1 == c2 && q1 == q2
  {
    PromptLayout(c1, q1);
    PromptLayout(c2, q2);
  }

  /** The texts of a list of documents. */
  function Texts(documentos: seq<Document>): seq<string>
  {
    seq(|documentos|, k requires 0 <= k < |documentos| => documentos[k].pageContent)
  }

  /** Every retrieved document's text appears in the joined context. */
  lemma ContextHoldsDocuments(documentos: seq<Document>)
    ensures forall k :: 0 <= k < |documentos| ==>
      Contains(Join(Texts(documentos), "\n"), documentos[k].pageContent)
  {
    var contexto := Join(Texts(documentos), "\n");
    forall k | 0 <= k < |documentos|
      ensures Contains(contexto, documentos[k].pageContent)
    {
      JoinPartAt(Texts(documentos), "\n", k);
      ContainsAt(contexto, documentos[k].pageContent, JoinOffset(Texts(documentos), "\n", k));
    }
  }

  /** One answered question: the line and the documents retrieved for it.
      The context, the preview shown and the prompt sent follow from them. */
  datatype Turn = Turn(pergunta: string, documentos: seq<Document>)
  {
    /** The retrieved texts joined with line feeds. */
    function Contexto(): string
    {
      Join(Texts(documentos), "\n")
    }

    function Shown(): string
    {
      Preview(Contexto())
    }

    function Sent(): string
    {
      Prompt(Contexto(), pergunta)
    }
  }

  /** One question: retrieve the documents for it. */
  function Respond(pergunta: string, retrieve: string -> seq<Document>): Turn
  {
    Turn(pergunta, retrieve(pergunta))
  }

  /** What a turn shows and sends: the preview is a prefix of the context of
      at most 1000 characters, the prompt holds the context and the question,
      and the context holds every retrieved text. */
  lemma TurnOutputs(t: Turn)
    ensures t.Shown() <= t.Contexto() && |t.Shown()| <= PreviewLength
    ensures Contains(t.Sent(), t.Contexto()) && Contains(t.Sent(), t.pergunta)
    ensures forall k :: 0 <= k < |t.documentos| ==>
      Contains(t.Contexto(), t.documentos[k].pageContent)
  {
    PromptLayout(t.Contexto(), t.pergunta);
    ContextHoldsDocuments(t.documentos);
  }

  /** The two states of the loop: still reading questions (with the turns so
      far), or stopped by an exit keyword. */
  datatype LoopState = Awaiting(turns: seq<Turn>) | Terminated(turns: seq<Turn>)

  /** One iteration of the loop on the line read. */
  function Step(state: LoopState, pergunta: string, retrieve: string -> seq<Document>): LoopState
  {
    match state
    case Terminated(_) => state
    case Awaiting(turns) =>
      if IsExit(pergunta) then Terminated(turns)
      else Awaiting(turns + [Respond(pergunta, retrieve)])
  }

  /** The state after the loop has been fed the lines `inputs`, one by one. */
  function Run(inputs: seq<string>, retrieve: string -> seq<Document>): LoopState
  {
    if inputs == [] then Awaiting([])
    else Step(Run(inputs[..|inputs| - 1], retrieve), inputs[|inputs| - 1], retrieve)
  }

  /** The loop answers the lines before the first exit keyword, in order,
      retrieving for each of them, and stops at that keyword; without one it
      answers every line and is still waiting for input. */
  lemma {:induction false} RunStopsAtFirstExit(inputs: seq<string>, retrieve: string -> seq<Document>)
    ensures |Run(inputs, retrieve).turns| <= |inputs|
    ensures forall k :: 0 <= k < |Run(inputs, retrieve).turns| ==>
      !IsExit(inputs[k]) && Run(inputs, retrieve).turns[k] == Respond(inputs[k], retrieve)
    ensures Run(inputs, retrieve).Terminated? <==>
      |Run(inputs, retrieve).turns| < |inputs| && IsExit(inputs[|Run(inputs, retrieve).turns|])
    ensures Run(inputs, retrieve).Awaiting? ==> |Run(inputs, retrieve).turns| == |inputs|
  {
    if inputs != [] {
      var init, last := inputs[..|inputs| - 1], inputs[|inputs| - 1];
      RunStopsAtFirstExit(init, retrieve);
      var prev, r := Run(init, retrieve), Run(inputs, retrieve);
      assert r == Step(prev, last, retrieve);
      assert forall k :: 0 <= k < |init| ==> init[k] == inputs[k];
      if prev.Awaiting? && !IsExit(last) {
        assert r.turns == prev.turns + [Respond(last, retrieve)];
      } else {
        assert r.turns == prev.turns;
      }
    }
  }


  /** Once an exit keyword has been read, later lines change nothing. */
  lemma {:induction false} RunAfterExit(inputs: seq<string>, more: seq<string>, retrieve: string -> seq<Document>)
    requires Run(inputs, retrieve).Terminated?
    ensures Run(inputs + more, retrieve) == Run(inputs, retrieve)
    decreases |more|
  {
    if more == [] {
      assert inputs + more == inputs;
    } else {
      var m := more[..|more| - 1];
      RunAfterExit(inputs, m, retrieve);
      assert (inputs + more)[..|inputs + more| - 1] == inputs + m;
    }
  }

  /** An exit keyword on the first line ends the loop with no retrieval. */
  lemma ExitOnFirstLine(inputs: seq<string>, retrieve: string -> seq<Document>)
    requires inputs != [] && IsExit(inputs[0])
    ensures Run(inputs, retrieve) == Terminated([])
  {
    assert inputs == [inputs[0]] + inputs[1..];
    assert [inputs[0]][..0] == [];
    RunAfterExit([inputs[0]], inputs[1..], retrieve);
  }

  /** The loop of the script, fed the lines `inputs`: it stops reading at
      the first exit keyword. `consumed` is how many lines it read and `sent`
      the prompts it sent to the model, in order. */
  method InteractionLoop(inputs: seq<string>, retrieve: string -> seq<Document>)
    returns (state: LoopState, consumed: nat, sent: seq<string>)
    ensures state == Run(inputs, retrieve)
    ensures consumed <= |inputs|
    ensures state.Terminated? ==> consumed == |state.turns| + 1 && IsExit(inputs[consumed - 1])
    ensures state.Awaiting? ==> consumed == |inputs|
    ensures |sent| == |state.turns| && forall k :: 0 <= k < |sent| ==> sent[k] == state.turns[k].Sent()
  {
    state := Awaiting([]);
    consumed := 0;
    sent := [];
    while consumed < |inputs|
      invariant consumed <= |inputs|
      invariant state == Run(inputs[..consumed], retrieve)
      invariant state.Awaiting? && |state.turns| == consumed
      invariant |sent| == consumed && forall k :: 0 <= k < consumed ==> sent[k] == state.turns[k].Sent()
      decreases |inputs| - consumed
    {
      var pergunta := inputs[consumed];
      assert inputs[..consumed + 1][..consumed] == inputs[..consumed];
      assert Run(inputs[..consumed + 1], retrieve) == Step(state, pergunta, retrieve);
      if IsExit(pergunta) {
        state := Terminated(state.turns);
        consumed := consumed + 1;
        RunAfterExit(inputs[..consumed], inputs[consumed..], retrieve);
        assert inputs[..consumed] + inputs[consumed..] == inputs;
        return;
      }
      var documentos := retrieve(pergunta);
      var contexto := Join(Texts(documentos), "\n");
      var prompt := Prompt(contexto, pergunta);
      state := Awaiting(state.turns + [Turn(pergunta, documentos)]);
      sent := sent + [prompt];
      consumed := consumed + 1;
    }
    assert inputs[..consumed] == inputs;
  }
}
