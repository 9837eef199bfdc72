# Chat front-end core: content formatter and conversation store

This project models the two pieces of the Flask chat server that carry real
behaviour:

- `format_content` (formatters.py) turns an agent's plain-text answer into
  HTML. It makes one pass over the lines of the text and strips each line. It
  skips blank lines and classifies each remaining line as one of four kinds,
  in a fixed priority:
  - a heading: the line ends in `:`;
  - a list item: the line starts with `-`;
  - a link line: the line contains `http://` or `https://`;
  - a paragraph: anything else.

  The flag `in_list` records whether a `<ul>` is open.
- The conversation store of app.py: the global `conversation_history`.
  - A question appends a `Usuario` turn and trims the list to its last 20
    turns.
  - Next, `build_context` serialises the stored turns as `role: content`
    lines. The query built from them goes to the agent.
  - The agent's answer is appended as an `Agente` turn, and the list is
    trimmed again.
  - `clear_history` empties the store.

The files:

- `Text.dfy` (module `Text`) models the Python string operations the source
  relies on:
  - `str.strip()` and `str.split()` with no argument, both using the whitespace
    set of `str.isspace`;
  - `str.split(sep)` for a one-character separator;
  - substring `in`, `startswith` and `endswith`.
- `Formatters.dfy` (module `Formatters`) describes the formatter twice.
  - `Format` is the reference definition: it maps the text to a sequence of
    `Fragment`s (open list, close list, heading, item, link line, paragraph),
    computed line by line by `Step` and `Run`. `Render` turns the fragments
    into HTML.
  - `FormatContent` is the loop of the source. It appends strings to an
    accumulator and keeps the flag `inList`. Its contract proves the loop
    produces exactly `Render(Format(content))`.
  - The other lemmas are stated on `Step` (one line), on `Run` (a block of
    lines) or on `Format` (the whole text): what each kind of line emits,
    that lists are never nested and are balanced, that blank lines contribute
    nothing, and so on.
- `App.dfy` (module `App`) holds the store:
  - the trim `Window`;
  - the context text `Context` and its loop `BuildContext`;
  - the class `Conversation`, whose field `history` is updated by `Append`,
    `Trim`, `Clear` and `HandleQuestion`.

  The agent's answer is a parameter of `HandleQuestion`, and the query sent to
  the agent is its result.

A heading line does not close an open list: the heading test
(formatters.py:20-22) runs before the list-closing branch (formatters.py:31-34).
A heading that arrives while a list is open is therefore emitted inside that
`<ul>`, and a following item joins the same list. `StepHeading` and
`HeadingInsideList` state this.

## Model

| member | source | states |
|---|---|---|
| Text.Strip | formatters.py:15 | The stripped line is empty exactly when the line is all whitespace; otherwise it neither starts nor ends with a whitespace character |
| Text.StripIsPadded | formatters.py:15 | The line is the stripped line with only whitespace before it and only whitespace after it |
| Text.StripUnique | formatters.py:15 | Any way of writing the line as whitespace, a text that is empty or has non-whitespace ends, and whitespace gives that text as the stripped line: `strip()` is exactly "remove leading and trailing whitespace" |
| Text.TrimStartSuffix | formatters.py:15 | Removing leading whitespace leaves a suffix, drops only whitespace, and leaves either nothing or a non-whitespace first character |
| Text.TrimEndPrefix | formatters.py:15 | Removing trailing whitespace leaves a prefix, drops only whitespace, and leaves either nothing or a non-whitespace last character |
| Text.ContainsOccurs | formatters.py:37 | `sub in s` holds if and only if `sub` occurs in `s` at some index |
| Text.Split | formatters.py:10 | Splitting on the newline gives at least one piece (`""` gives one empty piece), no piece holds a newline, every character of a piece comes from the text, and joining the pieces with newlines gives the text back |
| Text.SplitOfJoin | formatters.py:10 | Splitting the newline-join of pieces that hold no newline gives those pieces back |
| Text.Words | formatters.py:38 | `split()` with no argument gives tokens that are non-empty and hold no whitespace |
| Text.FirstWord | formatters.py:38 | The first token is a prefix without whitespace that ends at the text's end or at a whitespace character, and is non-empty when the text starts with a non-whitespace character |
| Text.WordsCover | formatters.py:38 | Every line is its `split()` tokens, in order, with whitespace before, between and after them and at least one whitespace character between neighbouring tokens: no non-whitespace character is lost or reordered |
| Text.WordsOfJoin | formatters.py:38 | `split()` of non-empty whitespace-free tokens joined by single spaces gives back exactly those tokens |
| Formatters.Classify | formatters.py:19-48 | A line alone never yields a list marker: only the pass's `in_list` flag opens or closes a `<ul>`. What each of the four kinds emits is stated by `StepHeading`, `StepItem`, `StepLinkLine` and `StepParagraph` |
| Formatters.StepHeading | formatters.py:19-22 | A stripped line ending in `:` emits only its heading, `<h3 class="text-xl font-bold mb-2">` + line + `</h3>` with the colon kept, even if it starts with `-` or holds a URL, and leaves `in_list` as it was, whether a list is open or not |
| Formatters.StepItem | formatters.py:24-30 | A stripped line starting with `-` and not ending in `:` opens a list exactly when none is open (`<ul class="list-disc list-inside mb-4">`), then emits its item `<li class="text-gray-700">` + `line[1:].strip()` + `</li>`, and leaves `in_list` true |
| Formatters.StepOther | formatters.py:31-48 | A non-blank line that is neither a heading nor an item first emits `</ul>` if a list is open, then its own fragment (link line or paragraph), and leaves `in_list` false |
| Formatters.StepLinkLine | formatters.py:31-45 | A line that is neither a heading nor an item and holds `http://` or `https://` emits `</ul>` if a list is open, then the HTML of its whitespace-separated tokens in order and `<br>`, with no `<p>`, and leaves `in_list` false |
| Formatters.StepParagraph | formatters.py:31-48 | Any other non-blank line emits `</ul>` if a list is open, then `<p class="text-black mb-2">` + stripped line + `</p>`, and leaves `in_list` false |
| Formatters.HeadingInsideList | formatters.py:20-34 | After lines that leave a list open, a heading and then an item add the heading and the item to that same list: no `</ul>` before the heading, no new `<ul>` before the item, and the list stays open |
| Formatters.AppendLinkLine | formatters.py:37-45 | The link-line loop appends, per whitespace-separated token in order, `<a href="tok" class="text-blue-500 hover:underline" target="_blank">tok</a> ` for a token starting with `http://` or `https://` and `tok ` otherwise, then `<br>`, with no `<p>` wrapper |
| Formatters.FormatContent | formatters.py:1-54 | The loop over lines, with its flag and accumulator, returns exactly the rendering of the reference fragment sequence `Format(content)` |
| Formatters.RunNested | formatters.py:12-34 | At every point of the pass the fragments emitted so far never open a list inside an open list or close one that is not open, and the flag says whether a list is open |
| Formatters.FormatNested | formatters.py:12-52 | The whole output opens and closes lists strictly alternately, starting and ending with no list open: lists are never nested and never left open |
| Formatters.OpensMatchCloses | formatters.py:26-34 | In properly alternating fragments the number of list openings equals the number of closings, plus one if a list is left open |
| Formatters.FormatBalanced | formatters.py:26-52 | The output holds exactly as many `<ul>` openings as `</ul>` closings |
| Formatters.RunConcat | formatters.py:14-48 | The pass over two blocks of lines is the pass over the first followed by the pass over the second, started with the first's final flag |
| Formatters.BlankLineIgnored | formatters.py:15-17 | Removing a whitespace-only line anywhere in the input changes nothing in the pass |
| Formatters.BlankLinesEmitNothing | formatters.py:15-17 | Whitespace-only lines emit nothing and leave `in_list` as it was |
| Formatters.WhitespaceOnlyInput | formatters.py:10-17 | Empty or whitespace-only text formats to the empty string |
| Formatters.RunContents | formatters.py:14-48 | Apart from list markers, the pass emits exactly one fragment per non-blank line, classified by the four rules, in input order |
| Formatters.FormatContents | formatters.py:14-54 | Apart from `<ul>`/`</ul>` markers, the output is the concatenation of the per-line fragments of the non-blank lines in input order |
| App.Window | app.py:153-154 | Trimming leaves at most 20 turns; a history of at most 20 is unchanged, a longer one becomes its last 20 turns in their original order |
| App.WindowAppend | app.py:150-154 | Appending to a trimmed history and trimming equals appending to the untrimmed history and trimming |
| App.DoubleTrim | app.py:150-168 | The request's two trims, after the question and after the answer, equal one trim after both appends |
| App.SlidingWindow | app.py:150-154 | Appending turns one at a time, trimming after each, leaves the last at most 20 of all turns, in order |
| App.LastTurnsKept | app.py:150-154 | After more than 20 single appends with trims the store holds exactly the last 20 turns appended, in order (25 appends to an empty store keep turns 6 to 25) |
| App.BuildContext | app.py:131-138 | The loop of `build_context` returns the in-order concatenation of `role: content\n` over all turns, `""` for an empty history |
| App.ContextIsJoin | app.py:135-138 | The context is the turns' lines joined by newlines, with a final newline |
| App.ContextLines | app.py:135-138 | When no content holds a newline, splitting the context on newlines gives exactly one line per stored turn, in stored order, and then the empty piece after the last newline |
| App.ContextEndsWithLast | app.py:136-137 | The context of a non-empty history ends with its last turn's line |
| App.ContextEndsWithQuestion | app.py:150-157 | The context built for a question ends with the line `Usuario: <question>` |
| App.Conversation.constructor | app.py:22 | The store starts empty |
| App.Conversation.Clear | app.py:126-127 | Clearing leaves the store empty, whatever it held |
| App.Conversation.Append | app.py:150 | Appending adds the turn at the end and keeps the earlier turns in order |
| App.Conversation.Trim | app.py:153-154 | Trimming replaces the store by its window of the last 20 turns |
| App.Conversation.HandleQuestion | app.py:146-168 | A question appends `Usuario: question`, trims, and builds the query `context + "\nAgente: Responde en español. " + question` from the trimmed store. It then appends `Agente: answer` and trims again. Afterwards the store holds at least 2 and at most 20 turns, the last is the answer and the one before it is the question, and the store equals one trim after both appends |

## Left out

- Flask routing, `request.form`, `redirect` and `render_template_string` (app.py:1-5, 124, 141, 170) are HTTP plumbing and are not modelled.
- The HTML template with its Tailwind styling and embedded JavaScript (app.py:28-121) is presentation only.
- The agent (`CodeAgent`, `DuckDuckGoSearchTool`, `HfApiModel`, app.py:2, 16) and the call `agent.run` (app.py:161) are an external, network-backed service. The answer is an input of `HandleQuestion`. A failing call is not modelled: the source lets its exception end the request after the question was already recorded.
- `load_dotenv` and `os.getenv("HF_TOKEN")` (app.py:12, 15) are environment configuration.
- Concurrent requests that race on the global history are not modelled. Each request is one sequential step on a single `Conversation` object.
- HTML escaping and the validity of the output are not claimed: the source escapes nothing. Balance and nesting are stated on the fragment sequence, because the user's own text may contain `<ul>`.
- Python strings are modelled as sequences of Unicode scalar values. The only Unicode property used is the whitespace set of `str.isspace`.
- Lone surrogate code points, which a Python string may hold, are not representable: a Dafny `char` excludes them.
- The formatter's role as a template filter on each stored entry (app.py:72) is not modelled.
