/**
 The conversation store and context builder of the chat server.

 The store is one process-wide list of turns, oldest first. Each question
 appends a user turn and, once the agent has answered, an agent turn; after
 each append the list is cut back to its last `MaxHistoryLength` turns. A
 clear request empties it. Before the agent is asked, the stored turns are
 serialised one `role: content` line each, and the question is appended to
 that text with a fixed instruction to answer in Spanish.

 The agent itself is not modelled: its answer is a parameter of
 `HandleQuestion`, and the query handed to it is that method's result.
 */
module App {
  import opened Text

  datatype Role = User | Agent

  /** The role labels the store records and the context prints. */
  function RoleName(r: Role): string
  {
    match r
    case User => "Usuario"
    case Agent => "Agente"
  }

  datatype Turn = Turn(role: Role, content: string)

  const MaxHistoryLength: nat := 20

  /**
   The trim applied after every append: a history longer than the maximum
   keeps only its last `MaxHistoryLength` turns, in their order; a shorter one
   is left alone.
   */
  function Window(history: seq<Turn>): (w: seq<Turn>)
    ensures |w| <= MaxHistoryLength
    ensures |history| <= MaxHistoryLength ==> w == history
    ensures |history| > MaxHistoryLength ==> |w| == MaxHistoryLength
    ensures w == history[|history| - |w|..]
  {
    if |history| > MaxHistoryLength then history[|history| - MaxHistoryLength..] else history
  }

  /** One turn as a context line: role, colon, space, content, line break. */
  function Entry(t: Turn): string
  {
    Line(t) + "\n"
  }

  function Line(t: Turn): string
  {
    RoleName(t.role) + ": " + t.content
  }

  /** The context text: the entries of all turns, in stored order. */
  function Context(history: seq<Turn>): string
  {
    if history == [] then ""
    else Context(history[..|history| - 1]) + Entry(history[|history| - 1])
  }

  /** The loop of `build_context`, proved to produce `Context(history)`. */
  method BuildContext(history: seq<Turn>) returns (context: string)
    ensures context == Context(history)
  {
    context := "";
    for i := 0 to |history|
      invariant context == Context(history[..i])
    {
      assert history[..i + 1][..i] == history[..i];
      context := context + Entry(history[i]);
    }
    assert history[..|history|] == history;
  }

  /** The query sent to the agent: the context, then the instruction and the question on a new line. */
  function Query(context: string, question: string): string
  {
    context + "\nAgente: Responde en español. " + question
  }

  /** The lines of the context, one per turn. */
  function Lines(history: seq<Turn>): seq<string>
  {
    seq(|history|, k requires 0 <= k < |history| => Line(history[k]))
  }

  /** The context is its lines joined by line breaks, with a final line break. */
  lemma {:induction false} ContextIsJoin(history: seq<Turn>)
    ensures Context(history) == Join(Lines(history) + [""], '\n')
    decreases |history|
  {
    if history != [] {
      var prev := history[..|history| - 1];
      var t := history[|history| - 1];
      ContextIsJoin(prev);
      assert Lines(history) == Lines(prev) + [Line(t)];
      JoinEmptyLast(Lines(history), '\n');
      JoinLast(Lines(prev), Line(t), '\n');
      AppendAssoc(Context(prev), Line(t), "\n");
    }
  }

  /**
   When no turn's content holds a line break, splitting the context on line
   breaks gives exactly one line per turn, in stored order, followed by the
   empty piece after the final line break.
   */
  lemma ContextLines(history: seq<Turn>)
    requires forall k :: 0 <= k < |history| ==> '\n' !in history[k].content
    ensures Split(Context(history), '\n') == Lines(history) + [""]
  {
    ContextIsJoin(history);
    PiecesHaveNoBreak(history);
    SplitOfJoin(Lines(history) + [""], '\n');
  }

  lemma PiecesHaveNoBreak(history: seq<Turn>)
    requires forall k :: 0 <= k < |history| ==> '\n' !in history[k].content
    ensures forall k :: 0 <= k < |history| + 1 ==> '\n' !in (Lines(history) + [""])[k]
  {
    var pieces := Lines(history) + [""];
    forall k | 0 <= k < |pieces|
      ensures '\n' !in pieces[k]
    {
      if k < |history| {
        LineHasNoBreak(history[k]);
      }
    }
  }

  lemma LineHasNoBreak(t: Turn)
    requires '\n' !in t.content
    ensures '\n' !in Line(t)
  {
    var name := RoleName(t.role);
    assert Line(t) == name + ": " + t.content;
    assert forall j :: 0 <= j < |name| ==> name[j] != '\n';
  }

  /** Trimming before an append and trimming after it agree with trimming once, after. */
  lemma WindowAppend(history: seq<Turn>, t: Turn)
    ensures Window(Window(history) + [t]) == Window(history + [t])
  {
    if |history| > MaxHistoryLength {
      var n := |history|;
      assert Window(history) + [t] == history[n - MaxHistoryLength..] + [t];
      assert (history[n - MaxHistoryLength..] + [t])[1..] == history[n + 1 - MaxHistoryLength..] + [t];
      assert (history + [t])[n + 1 - MaxHistoryLength..] == history[n + 1 - MaxHistoryLength..] + [t];
    }
  }

  /** One request's two trims, after the question and after the answer, act as a single trim after both. */
  lemma DoubleTrim(history: seq<Turn>, question: Turn, answer: Turn)
    ensures Window(Window(history + [question]) + [answer]) == Window(history + [question, answer])
  {
    WindowAppend(history + [question], answer);
    assert history + [question] + [answer] == history + [question, answer];
  }

  /** The store after each turn of `turns` is appended and trimmed in turn, starting from `history`. */
  function AppendEach(history: seq<Turn>, turns: seq<Turn>): seq<Turn>
  {
    if turns == [] then Window(history)
    else Window(AppendEach(history, turns[..|turns| - 1]) + [turns[|turns| - 1]])
  }

  /** Appending turns one at a time, trimming after each, is a sliding window over all of them. */
  lemma {:induction false} SlidingWindow(history: seq<Turn>, turns: seq<Turn>)
    ensures AppendEach(history, turns) == Window(history + turns)
    decreases |turns|
  {
    if turns != [] {
      var prev := turns[..|turns| - 1];
      var t := turns[|turns| - 1];
      calc {
        AppendEach(history, turns);
        Window(AppendEach(history, prev) + [t]);
        { SlidingWindow(history, prev); }
        Window(Window(history + prev) + [t]);
        { WindowAppend(history + prev, t); }
        Window(history + prev + [t]);
        { assert history + prev + [t] == history + turns; }
        Window(history + turns);
      }
    }
  }

  /** More than `MaxHistoryLength` appends leave exactly the last `MaxHistoryLength` turns appended, in order. */
  lemma LastTurnsKept(history: seq<Turn>, turns: seq<Turn>)
    requires |turns| > MaxHistoryLength
    ensures AppendEach(history, turns) == turns[|turns| - MaxHistoryLength..]
  {
    SlidingWindow(history, turns);
    var all := history + turns;
    assert all[|all| - MaxHistoryLength..] == turns[|turns| - MaxHistoryLength..];
  }

  /** The context of a non-empty history ends with the entry of its last turn. */
  lemma ContextEndsWithLast(history: seq<Turn>)
    requires history != []
    ensures EndsWith(Context(history), Entry(history[|history| - 1]))
  {
    var c := Context(history);
    var e := Entry(history[|history| - 1]);
    assert c == Context(history[..|history| - 1]) + e;
    assert c[|c| - |e|..] == e;
  }

  /** The context built for a question ends with that question's own line. */
  lemma ContextEndsWithQuestion(history: seq<Turn>, question: string)
    ensures EndsWith(Context(Window(history + [Turn(User, question)])), "Usuario: " + question + "\n")
  {
    var w := Window(history + [Turn(User, question)]);
    assert w[|w| - 1] == Turn(User, question);
    ContextEndsWithLast(w);
    assert Entry(Turn(User, question)) == "Usuario: " + question + "\n";
  }

  /** The process-wide conversation store. */
  class Conversation {
    var history: seq<Turn>

    /** The store as the process starts: empty. */
    constructor ()
      ensures history == []
    {
      history := [];
    }

    /** `clear_history`: empty the store, whatever it held. */
    method Clear()
      modifies this
      ensures history == []
    {
      history := [];
    }

    method Append(t: Turn)
      modifies this
      ensures history == old(history) + [t]
    {
      history := history + [t];
    }

    method Trim()
      modifies this
      ensures history == Window(old(history))
    {
      if |history| > MaxHistoryLength {
        history := history[|history| - MaxHistoryLength..];
      }
    }

    /**
     One question: record it, trim, build the query from the trimmed store,
     record the agent's `answer` to that query, trim again. The query is
     returned; the answer stands in for the agent's reply to it.
     */
    method HandleQuestion(question: string, answer: string) returns (query: string)
      modifies this
      ensures query == Query(Context(Window(old(history) + [Turn(User, question)])), question)
      ensures history == Window(Window(old(history) + [Turn(User, question)]) + [Turn(Agent, answer)])
      ensures history == Window(old(history) + [Turn(User, question), Turn(Agent, answer)])
      ensures 2 <= |history| <= MaxHistoryLength
      ensures history[|history| - 2] == Turn(User, question)
      ensures history[|history| - 1] == Turn(Agent, answer)
    {
      ghost var before := history;
      Append(Turn(User, question));
      Trim();
      var context := BuildContext(history);
      query := Query(context, question);
      Append(Turn(Agent, answer));
      Trim();
      DoubleTrim(before, Turn(User, question), Turn(Agent, answer));
    }
  }
}
