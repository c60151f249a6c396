/** The answer gate of the chat handler: the retrieval chain is an opaque
    result; with no source documents the reply is a fixed refusal, the text
    the `system_message` literal ends with. */
module ChatGate {
  import opened Wrappers
  import opened Corpus

  /** What the conversational retrieval chain returns: its answer and the
      `source_documents` entry, `None` when the entry is missing or `None`. */
  datatype ChainResult = ChainResult(answer: string, sourceDocuments: Option<seq<Document>>)

  /** The fixed reply of the gate when nothing was retrieved. */
  function Refusal(): string
  {
    "Não sei. Isso não consta nos dados da Prediza."
  }

  /** The `system_message` literal (the prompt appends the language line to
      it), written as the sentence that introduces the fallback answer
      followed by the answer it quotes. */
  function SystemMessage(): string
  {
    Instruction + "Não sei. Isso não consta nos dados da Prediza."
  }

  const Instruction := "Você é especialista em responder perguntas precisas sobre a empresa Prediza. Seja breve e preciso. Se não souber a resposta, diga. Não invente nada se não tiver recebido contexto relevante.Você deve usar apenas os documentos fornecidos para responder. Se não encontrar nada nos documentos, responda: "

  /** Whether the chain returned at least one source document:
      `result.get("source_documents", [])` is a non-empty list. */
  predicate HasSources(result: ChainResult) {
    result.sourceDocuments.Some? && |result.sourceDocuments.value| > 0
  }

  /** `chat`: the refusal when nothing was retrieved, the chain's answer
      unchanged otherwise. */
  function Chat(result: ChainResult): (reply: string)
    ensures !HasSources(result) ==> reply == Refusal()
    ensures HasSources(result) ==> reply == result.answer
  {
    match result.sourceDocuments
    case None => Refusal()
    case Some(docs) => if |docs| == 0 then Refusal() else result.answer
  }

  /** The refusal the gate returns is verbatim the one the system message
      quotes: the message ends with it. */
  lemma RefusalIsInstructed()
    ensures |Refusal()| <= |SystemMessage()| && SystemMessage()[|SystemMessage()| - |Refusal()|..] == Refusal()
  {
  }
}
