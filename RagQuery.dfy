/**
 * The query side's own logic (rag_query.py): turning retrieved documents into one
 * context string, shaping the prompt's input record, the in-memory chat history,
 * and the command that ends the chat loop.
 */
module RagQuery {
  import opened PyText
  import opened Documents

  // ---------------------------------------------------------------------------
  // Context formatting (format_docs)
  // ---------------------------------------------------------------------------

  /** The text block of one retrieved document: a delimiter line, then its stripped text. */
  function Block(d: Document): string {
    "---\n" + Strip(d.pageContent)
  }

  /** The block of every document, in rank order. */
  function Blocks(docs: seq<Document>): seq<string> {
    seq(|docs|, i requires 0 <= i < |docs| => Block(docs[i]))
  }

  /** `sep.join(parts)`. */
  function Join(sep: string, parts: seq<string>): string {
    if |parts| == 0 then ""
    else if |parts| == 1 then parts[0]
    else parts[0] + sep + Join(sep, parts[1..])
  }

  /** A join of at least one part starts with the first part. */
  lemma JoinStartsWithFirst(sep: string, parts: seq<string>)
    requires |parts| > 0
    ensures |parts[0]| <= |Join(sep, parts)| && Join(sep, parts)[..|parts[0]|] == parts[0]
  {
  }

  /** `format_docs`: the blocks joined by blank lines. The result is empty exactly
      when nothing was retrieved, and otherwise starts with the delimiter line. */
  function FormatDocs(docs: seq<Document>): (r: string)
    ensures r == [] <==> docs == []
    ensures docs != [] ==> |r| >= 4 && r[..4] == "---\n"
  {
    if docs != [] then
      JoinStartsWithFirst("\n\n", Blocks(docs));
      assert Blocks(docs)[0] == Block(docs[0]);
      Join("\n\n", Blocks(docs))
    else
      Join("\n\n", Blocks(docs))
  }

  lemma FormatDocsSingle(docs: seq<Document>)
    requires |docs| == 1
    ensures FormatDocs(docs) == Block(docs[0])
  {
  }

  /** With two or more documents, the first block, a blank line, and the rest. */
  lemma FormatDocsCons(docs: seq<Document>)
    requires |docs| >= 2
    ensures FormatDocs(docs) == Block(docs[0]) + "\n\n" + FormatDocs(docs[1..])
  {
    assert Blocks(docs)[1..] == Blocks(docs[1..]);
  }

  /** The sum over the documents of the block lengths, 4 + |stripped text|. */
  function SumBlockLengths(docs: seq<Document>): nat {
    if docs == [] then 0 else 4 + |Strip(docs[0].pageContent)| + SumBlockLengths(docs[1..])
  }

  /** The formatted context of n >= 1 documents is as long as their blocks plus
      n - 1 two-character separators. */
  lemma {:induction false} FormatDocsLength(docs: seq<Document>)
    requires |docs| >= 1
    ensures |FormatDocs(docs)| == SumBlockLengths(docs) + 2 * (|docs| - 1)
  {
    if |docs| == 1 {
      FormatDocsSingle(docs);
      assert docs[1..] == [];
    } else {
      FormatDocsCons(docs);
      FormatDocsLength(docs[1..]);
    }
  }

  /** Where part `i` starts in `sep.join(parts)`. */
  function PartStart(sep: string, parts: seq<string>, i: nat): nat
    requires i <= |parts|
  {
    if i == 0 then 0 else |parts[0]| + |sep| + PartStart(sep, parts[1..], i - 1)
  }

  lemma SliceAfter(x: string, y: string, lo: nat, hi: nat)
    requires lo <= hi <= |y|
    ensures (x + y)[|x| + lo..|x| + hi] == y[lo..hi]
  {
  }

  /** Part `i` of a join is found at its start position. */
  lemma {:induction false} JoinPartAt(sep: string, parts: seq<string>, i: nat)
    requires i < |parts|
    ensures PartStart(sep, parts, i) + |parts[i]| <= |Join(sep, parts)|
    ensures Join(sep, parts)[PartStart(sep, parts, i)..PartStart(sep, parts, i) + |parts[i]|] == parts[i]
  {
    if |parts| == 1 {
      assert parts[0][0..|parts[0]|] == parts[0];
    } else {
      var head, rest := parts[0] + sep, Join(sep, parts[1..]);
      assert Join(sep, parts) == head + rest;
      if i == 0 {
        assert (head + rest)[0..|parts[0]|] == parts[0];
      } else {
        JoinPartAt(sep, parts[1..], i - 1);
        assert parts[1..][i - 1] == parts[i];
        var st := PartStart(sep, parts[1..], i - 1);
        SliceAfter(head, rest, st, st + |parts[i]|);
      }
    }
  }

  /** Right after part `i` of a join, when another part follows, comes the separator. */
  lemma {:induction false} JoinSeparatorAfter(sep: string, parts: seq<string>, i: nat)
    requires i + 1 < |parts|
    ensures PartStart(sep, parts, i) + |parts[i]| + |sep| <= |Join(sep, parts)|
    ensures Join(sep, parts)[PartStart(sep, parts, i) + |parts[i]|..PartStart(sep, parts, i) + |parts[i]| + |sep|] == sep
  {
    var head, rest := parts[0] + sep, Join(sep, parts[1..]);
    assert Join(sep, parts) == head + rest;
    if i == 0 {
      assert (head + rest)[|parts[0]|..|parts[0]| + |sep|] == sep;
    } else {
      JoinSeparatorAfter(sep, parts[1..], i - 1);
      assert parts[1..][i - 1] == parts[i];
      var e := PartStart(sep, parts[1..], i - 1) + |parts[i]|;
      SliceAfter(head, rest, e, e + |sep|);
    }
  }

  /** For i < j, part `i` and a separator end no later than part `j` starts. */
  lemma {:induction false} JoinPartOrder(sep: string, parts: seq<string>, i: nat, j: nat)
    requires i < j < |parts|
    ensures PartStart(sep, parts, i) + |parts[i]| + |sep| <= PartStart(sep, parts, j)
  {
    if i > 0 {
      JoinPartOrder(sep, parts[1..], i - 1, j - 1);
      assert parts[1..][i - 1] == parts[i];
    }
  }

  /** Where block `i` starts in the formatted context. */
  function BlockStart(docs: seq<Document>, i: nat): nat
    requires i <= |docs|
  {
    PartStart("\n\n", Blocks(docs), i)
  }

  /** Block `i` is found at its start position. */
  lemma FormatDocsBlockAt(docs: seq<Document>, i: nat)
    requires i < |docs|
    ensures BlockStart(docs, i) + |Block(docs[i])| <= |FormatDocs(docs)|
    ensures FormatDocs(docs)[BlockStart(docs, i)..BlockStart(docs, i) + |Block(docs[i])|] == Block(docs[i])
  {
    JoinPartAt("\n\n", Blocks(docs), i);
  }

  /** Within block `i`, after the delimiter line, is the stripped text of document `i`. */
  lemma FormatDocsTextAt(docs: seq<Document>, i: nat)
    requires i < |docs|
    ensures BlockStart(docs, i) + |Block(docs[i])| <= |FormatDocs(docs)|
    ensures FormatDocs(docs)[BlockStart(docs, i) + 4..BlockStart(docs, i) + |Block(docs[i])|]
         == Strip(docs[i].pageContent)
  {
    FormatDocsBlockAt(docs, i);
    var f, st, n := FormatDocs(docs), BlockStart(docs, i), |Block(docs[i])|;
    assert f[st + 4..st + n] == f[st..st + n][4..];
  }

  /** Between block `i` and block `i + 1` is a blank line. */
  lemma FormatDocsSeparatorAfter(docs: seq<Document>, i: nat)
    requires i + 1 < |docs|
    ensures BlockStart(docs, i) + |Block(docs[i])| + 2 <= |FormatDocs(docs)|
    ensures FormatDocs(docs)[BlockStart(docs, i) + |Block(docs[i])|..BlockStart(docs, i) + |Block(docs[i])| + 2] == "\n\n"
  {
    JoinSeparatorAfter("\n\n", Blocks(docs), i);
  }

  /** Retrieval rank order is kept: block `i` ends before block `j` starts for i < j. */
  lemma FormatDocsRankOrder(docs: seq<Document>, i: nat, j: nat)
    requires i < j < |docs|
    ensures BlockStart(docs, i) + |Block(docs[i])| < BlockStart(docs, j)
  {
    JoinPartOrder("\n\n", Blocks(docs), i, j);
  }

  // ---------------------------------------------------------------------------
  // Prompt input (inject_context)
  // ---------------------------------------------------------------------------

  /** The kinds of chat message. */
  datatype Role = Human | Ai | System | Other(kind: string)

  /** A chat message: its kind and its content. */
  datatype Message = Message(role: Role, content: string)

  /** The record the chain is invoked with: the question and the prior history. */
  datatype ChainInput = ChainInput(question: string, history: seq<Message>)

  /** The record handed on to the prompt template. */
  datatype PromptInput = PromptInput(question: string, context: string, history: seq<Message>)

  /** The retriever bound to the vector store: the ranked documents for a query. */
  type Retriever = string -> seq<Document>

  /** `inject_context`: retrieve with the question, format what was retrieved, and pass
      question and history on unchanged. The context is empty exactly when nothing
      was retrieved. */
  function InjectContext(inputs: ChainInput, retrieve: Retriever): (r: PromptInput)
    ensures r.question == inputs.question && r.history == inputs.history
    ensures r.context == [] <==> retrieve(inputs.question) == []
  {
    var docs := retrieve(inputs.question);
    PromptInput(inputs.question, FormatDocs(docs), inputs.history)
  }

  /** History plays no part in retrieval: two inputs with the same question get the
      same context, whatever their histories. */
  lemma InjectContextIgnoresHistory(a: ChainInput, b: ChainInput, retrieve: Retriever)
    requires a.question == b.question
    ensures InjectContext(a, retrieve).context == InjectContext(b, retrieve).context
  {
  }

  /** The context holds the stripped text of the `i`-th retrieved document, at the
      position of block `i`, and the blocks follow the retriever's ranking. */
  lemma InjectContextRanks(inputs: ChainInput, retrieve: Retriever, i: nat)
    requires i < |retrieve(inputs.question)|
    ensures var docs := retrieve(inputs.question);
            var st := BlockStart(docs, i);
            var ctx := InjectContext(inputs, retrieve).context;
            st + |Block(docs[i])| <= |ctx| &&
            ctx[st + 4..st + |Block(docs[i])|] == Strip(docs[i].pageContent) &&
            (i + 1 < |docs| ==> st + |Block(docs[i])| < BlockStart(docs, i + 1))
  {
    var docs := retrieve(inputs.question);
    FormatDocsTextAt(docs, i);
    if i + 1 < |docs| {
      FormatDocsRankOrder(docs, i, i + 1);
    }
  }

  // ---------------------------------------------------------------------------
  // Chat history (Mymemory)
  // ---------------------------------------------------------------------------

  /** The in-memory chat history: a list of messages that only grows, until cleared. */
  class Mymemory {
    var messages: seq<Message>

    /** A new history holds no messages. */
    constructor ()
      ensures messages == []
    {
      messages := [];
    }

    /** `add_user_message`: append one human message with the given content. */
    method AddUserMessage(content: string)
      modifies this
      ensures messages == old(messages) + [Message(Human, content)]
    {
      messages := messages + [Message(Human, content)];
    }

    /** `add_ai_message`: append one AI message with the given content. */
    method AddAiMessage(content: string)
      modifies this
      ensures messages == old(messages) + [Message(Ai, content)]
    {
      messages := messages + [Message(Ai, content)];
    }

    /** `add_message`: append the message itself. */
    method AddMessage(message: Message)
      modifies this
      ensures messages == old(messages) + [message]
    {
      messages := messages + [message];
    }

    /** `clear`: drop every message. */
    method Clear()
      modifies this
      ensures messages == []
    {
      messages := [];
    }
  }

  /** The history factory given to the chain: every lookup, whatever the session id,
      builds a new, empty history. */
  method SessionHistory(sessionId: string) returns (h: Mymemory)
    ensures fresh(h) && h.messages == []
  {
    h := new Mymemory();
  }

  /** A client of the history's contracts: one question and its answer are recorded
      in order, and clearing then forgets both. */
  method RecordOneTurn(question: string, answer: string) returns (recorded: seq<Message>, afterClear: seq<Message>)
    ensures recorded == [Message(Human, question), Message(Ai, answer)]
    ensures afterClear == []
  {
    var memory := new Mymemory();
    memory.AddUserMessage(question);
    memory.AddAiMessage(answer);
    recorded := memory.messages;
    memory.Clear();
    afterClear := memory.messages;
  }

  /** As written, the factory forgets: after a turn is recorded in the history of a
      session, the next lookup of the same session sees no messages at all. */
  method AsWrittenNextTurnHistory(sessionId: string, question: string, answer: string)
    returns (history: seq<Message>)
    ensures history == []
  {
    var current := SessionHistory(sessionId);
    current.AddUserMessage(question);
    current.AddAiMessage(answer);
    var next := SessionHistory(sessionId);
    history := next.messages;
  }

  /** The evidently intended factory: one history per session id, created empty on
      first lookup and returned again on every later lookup. */
  class SessionStore {
    var histories: map<string, Mymemory>

    constructor ()
      ensures histories == map[]
    {
      histories := map[];
    }

    method GetOrCreate(sessionId: string) returns (h: Mymemory)
      modifies this
      ensures sessionId in old(histories) ==> h == old(histories)[sessionId] && histories == old(histories)
      ensures sessionId !in old(histories) ==>
                fresh(h) && h.messages == [] && histories == old(histories)[sessionId := h]
    {
      if sessionId in histories {
        h := histories[sessionId];
      } else {
        h := new Mymemory();
        histories := histories[sessionId := h];
      }
    }
  }

  /** With the intended factory, the next turn of the same session sees the turn
      just recorded. */
  method CorrectedNextTurnHistory(sessionId: string, question: string, answer: string)
    returns (history: seq<Message>)
    ensures history == [Message(Human, question), Message(Ai, answer)]
  {
    var store := new SessionStore();
    var current := store.GetOrCreate(sessionId);
    current.AddUserMessage(question);
    current.AddAiMessage(answer);
    var next := store.GetOrCreate(sessionId);
    history := next.messages;
  }

  // ---------------------------------------------------------------------------
  // The chat loop's exit command
  // ---------------------------------------------------------------------------

  /** The loop ends on a line that, stripped and lower-cased, is "exit". */
  predicate IsExitCommand(line: string) {
    Lower(Strip(line)) == "exit"
  }

  /** Any capitalisation of "exit", padded with whitespace on either side, ends the loop. */
  lemma ExitOnPaddedCommand(w1: string, u: string, w2: string)
    requires AllSpace(w1) && AllSpace(w2)
    requires Lower(u) == "exit"
    ensures IsExitCommand(w1 + u + w2)
  {
    LowerShape(u);
    assert LowerChar(u[0]) == 'e' && LowerChar(u[3]) == 't';
    StripPadded(w1, u, w2);
  }

  /** Conversely, a line that ends the loop is whitespace, a capitalisation of
      "exit", and whitespace. */
  lemma ExitCommandShape(line: string) returns (w1: string, w2: string)
    requires IsExitCommand(line)
    ensures AllSpace(w1) && AllSpace(w2)
    ensures |line| == |w1| + 4 + |w2|
    ensures line == w1 + line[|w1|..|w1| + 4] + w2
    ensures Lower(line[|w1|..|w1| + 4]) == "exit"
  {
    var u := Strip(line);
    w1, w2 := StripDecompose(line);
    LowerShape(u);
    assert line[|w1|..|w1| + |u|] == u;
  }

  /** "  EXIT " ends the loop; "exit now" does not. */
  lemma ExitExamples()
    ensures IsExitCommand("  EXIT ")
    ensures !IsExitCommand("exit now")
  {
    assert "  EXIT " == "  " + "EXIT" + " ";
    LowerShape("EXIT");
    assert Lower("EXIT") == "exit";
    ExitOnPaddedCommand("  ", "EXIT", " ");
    assert [] + "exit now" + [] == "exit now";
    StripPadded([], "exit now", []);
    LowerShape("exit now");
  }
}
