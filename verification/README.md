# Kubernetes-RAG chat service: a Dafny model

This project models the part of the Kubernetes-RAG chat service that has logic of its own. The service is a Flask app whose agent answers questions about a Kubernetes cluster.

Three pieces are modelled:

- **The reply formatter**, `format_agent_response` (`formatter.dfy`). It removes the agent's citation markers `【N:M†source】`. It then splits the text on fenced code regions. Each region becomes `<pre><code>…</code></pre>`, without its first line (the language tag) when it has more than one line. Each plain part is stripped and cut at blank lines. Each non-empty piece becomes `<p>…</p>`, with its line breaks turned into `<br>`.
  - The two regular expressions are replaced by hand-written scanners: `citations.dfy` for the citation pattern, `fences.dfy` for the lazy fence pattern.
  - Each scanner is related to a declarative statement of what it matches.
  - The Python string operations involved are defined in `text.dfy`: `strip`, `split`, `join`, `replace` and `str(int)`, together with the first-occurrence search that `split` performs.
- **The session store** (`sessions.dfy`). The `chat` and `delete_thread` handlers share the `sessions` dictionary, which maps a browser session id to an agent thread id.
  - The store is a class whose methods change that map.
  - Every call into the agent service is an input to these methods: the value the call returns, or the fact that it raises.
  - A ghost trace records the calls made, in order. This lets the model state which calls happen, including that no thread is created for a known session.
- **The two cluster tools**, `list_kubernetes_pods` and `restart_all_pods` (`kubernetes_tools.dfy`).
  - They are pure functions of what loading the config and listing the namespace gave, and of what the collection delete would raise.
  - Each returns its text together with the number of deletes it issued.

The formatter's loop over the split parts is proved against a pure definition, `Formatted`, and so is its inner loop over paragraphs. The properties are then proved about that definition. The citation substitution is a single left-to-right pass. Removing an inner marker can therefore leave an outer marker in the output, for example `【1【2:3†source】:4†source】`, so the output is *not* claimed to be marker-free. What is proved instead is the exact decomposition: the input is kept text interleaved with markers, and the output is the kept text (`Citations.StripCitationsDecompose`). Every such decomposition has the same kept text, so this fixes the output (`Citations.DecompositionUnique`).

## Model

| member | source | states |
|---|---|---|
| Text.Strip | app/app.py:66 | `str.strip()`: the result is a contiguous slice of the input with no whitespace at either end; it is empty exactly when the input is all whitespace |
| Text.StripExact | app/app.py:62 | when the input is whitespace, then a core `s[i..j]` that starts and ends with non-whitespace, then whitespace, stripping gives exactly that core |
| Text.IndexOf | app/app.py:62 | the first-occurrence search inside `split('\n', 1)` and `split('\n\n')`: the index returned is an occurrence and no occurrence comes before it; none is returned only when there is no occurrence |
| Text.SplitOn | app/app.py:66 | `s.split(sep)` (also `split('\n', 1)` at line 62, whose last piece `CodeBody` takes): there is always at least one piece; what the pieces are is stated by `SplitOnLeftmost`, `SplitOnJoin` and `SplitOnPieces` |
| Text.SplitOnLeftmost | app/app.py:66 | the cuts are made left to right: text without the separator is one piece, and when the first occurrence is at `i` the first piece is the text before `i` and the rest is the split of what follows the separator |
| Text.SplitOnOverlapping | app/app.py:66 | for the self-overlapping separator `"\n\n"`, `"\n\n\n"` splits into `['', '\n']` as in Python, not `['\n', '']` |
| Text.Join | app/kubernetes_tools.py:30 | `sep.join(parts)`: the parts in order with the separator between neighbours; `JoinSplitOn` and `SplitOnJoin` state it as the inverse of `split` |
| Text.Concat | app/app.py:73 | `''.join(parts)`: the parts in order with nothing between; `Formatter.FormatAgentResponse` applies it to the fragments |
| Text.SplitOnJoin | app/app.py:66 | joining the pieces of `s.split(sep)` with `sep` gives `s` back: splitting loses nothing |
| Text.SplitOnPieces | app/app.py:66 | no piece of `s.split(sep)` contains `sep` |
| Text.JoinSplitOn | app/kubernetes_tools.py:30 | joining parts with a one-character separator that occurs in none of them and splitting again gives the parts back |
| Text.BreakLines | app/app.py:70 | `p.replace('\n', '<br>')`: the result holds no line break, and text without one is unchanged; `BreakLinesIsSplitJoin` relates it to Python's `replace` |
| Text.BreakLinesIsSplitJoin | app/app.py:70 | the character-by-character replacement of `\n` by `<br>` equals Python's left-to-right `replace`, i.e. split on `\n` and join with `<br>` |
| Text.BreakLinesAppend | app/app.py:70 | the replacement distributes over concatenation |
| Text.NatToString | app/kubernetes_tools.py:71 | `str(n)` is a non-empty run of digits without a leading zero |
| Text.ParseNatToString | app/kubernetes_tools.py:71 | the numeral printed for `n` reads back as `n` |
| Citations.DigitRun | app/app.py:42 | the greedy `\d+`: the longest run of digits at the start of the text |
| Citations.DigitRunExact | app/app.py:42 | any digit prefix followed by a non-digit (or the end) is the greedy run |
| Citations.MatchCitation | app/app.py:42 | the scanner for `CITATION_PATTERN` at the start of the text: a marker it reports lies within the text; `MatchCitationIff` states that it reports exactly the markers of the pattern |
| Citations.MatchCitationIff | app/app.py:42 | the scanner reports a marker of length `n` at the start of `s` exactly when the first `n` characters match `【\d+:\d+†source】` |
| Citations.CitationOpensOnce | app/app.py:42 | a marker holds the opening bracket at its first position only |
| Citations.NoOpenUnchanged | app/app.py:50 | text without the opening bracket passes through the substitution unchanged |
| Citations.StripCitations | app/app.py:50 | `CITATION_PATTERN.sub('', text)`: the output is never longer than the input; its meaning is stated by `StripCitationsDecompose` and `DecompositionUnique` |
| Citations.StripCitationsIdentity | app/app.py:50 | text containing no marker passes through the substitution unchanged |
| Citations.StripCitationsDecompose | app/app.py:50 | the input is kept pieces interleaved with markers, no kept piece contains a marker, and the output is the kept pieces in order |
| Citations.DecompositionUnique | app/app.py:50 | any split of the input into marker-free kept pieces and markers has the substitution's output as its kept text, so the decomposition fixes the output |
| Fences.SplitFences | app/app.py:53-54 | `re.split` on the lazy fence pattern: an odd number of parts, plain text at even indices and region contents at odd ones; the three lemmas below state which parts |
| Fences.SplitFencesRoundTrip | app/app.py:53-54 | putting the fences back between the parts gives the text that was split |
| Fences.SplitFencesUpToFirst | app/app.py:53-54 | every part but the last runs up to the first fence after its start (the lazy `.*?`) |
| Fences.SplitFencesLast | app/app.py:53-54 | the last part contains no opening fence with a closing fence after it, so a trailing unmatched fence stays in the plain text |
| Fences.NoPairOnePart | app/app.py:53-54 | text without a fence pair is a single plain part |
| Formatter.CodeBody | app/app.py:62 | the code shown is the stripped region when it has no line break, else what follows its first line |
| Formatter.CodeBlock | app/app.py:62-63 | the `<pre><code>` fragment of a fenced region, holding its `CodeBody`; `FormatFencedBlock` and `FormatCodeDropsLanguage` state what it shows |
| Formatter.TextBlocks | app/app.py:66-71 | the `<p>` fragments of a plain part; `TextBlocksEmpty`, `OneParagraph`, `FormatTwoParagraphs` and `FormatLineBreak` state what they are |
| Formatter.Blocks | app/app.py:56-71 | the fragments of the split parts in order, odd parts as code and even parts as paragraphs; `FormatAgentResponse` proves the source's loop builds exactly these |
| Formatter.Formatted | app/app.py:44-73 | what `format_agent_response` returns: citation removal, the fence split, the fragments, joined; the Formatter lemmas state its properties |
| Formatter.FormatAgentResponse | app/app.py:44-73 | the method with the source's loop over the split parts returns `Formatted(text)`: the fragments of the parts in order, odd parts as code blocks and even parts as paragraphs |
| Formatter.AppendParagraphs | app/app.py:66-71 | the inner loop appends exactly the paragraphs of the stripped part, in order |
| Formatter.NoBacktickOnePart | app/app.py:53-54 | text without a backtick is a single plain part |
| Formatter.FormatPlain | app/app.py:50-54 | text with no citation bracket and no backtick is formatted as one plain part |
| Formatter.TextBlocksEmpty | app/app.py:64-71 | a plain part yields no HTML exactly when it is whitespace only |
| Formatter.FormatWhitespace | app/app.py:44-73 | empty or whitespace-only input formats to the empty string |
| Formatter.OneParagraph | app/app.py:66-71 | a stripped part with no blank line is one `<p>`, its line breaks turned into `<br>`, its other characters unescaped |
| Formatter.FormatTwoParagraphs | app/app.py:66-71 | `p + "\n\n" + q` formats to `<p>p</p><p>q</p>` |
| Formatter.FormatLineBreak | app/app.py:66-71 | `p + "\n" + q` formats to one `<p>` holding `p<br>q` |
| Formatter.FormatFencedBlock | app/app.py:57-63 | a text that is one fenced region formats to one `<pre><code>` block of its code body |
| Formatter.FormatCodeDropsLanguage | app/app.py:57-63 | a fenced region of a language tag line and code formats to `<pre><code>` + code + `</code></pre>`, without the tag |
| ChatApp.SessionStore.constructor | app/app.py:39 | the store starts empty with no calls made |
| ChatApp.SessionStore.Chat | app/app.py:85-128 | a missing or empty message or id gives 400 and changes nothing; a known id keeps its thread with no create call; an unknown id makes one create call and is stored only if it returns; no other session changes; the response is `Answer` of the outcomes |
| ChatApp.SessionStore.DeleteThread | app/app.py:138-148 | an empty or unknown id gives 404 and changes nothing; otherwise only that session is removed, before the remote delete of its thread, so it stays removed when the delete raises (500) |
| ChatApp.FirstAnswer | app/app.py:119-122 | the index of the first assistant message with text in the listing: no earlier message qualifies; none only when no message qualifies |
| ChatApp.ReplyText | app/app.py:117-122 | the formatted first text of the first answer, or "No response from agent."; `SelectReply`, `FirstAnswerAt`, `NoAnswer` and `ReplyFromFirstAnswer` state it |
| ChatApp.SelectReply | app/app.py:118-122 | the loop with `break` returns the formatted first text of the first answer, or "No response from agent." |
| ChatApp.ReplyFromFirstAnswer | app/app.py:119-122 | messages after the first answer do not affect the reply |
| ChatApp.NoAnswer | app/app.py:118-122 | a listing without an answer gives "No response from agent." |
| ChatApp.Answer | app/app.py:110-128 | the response `chat` gives once it has the thread, from the outcomes of the post, run and list calls; `AnswerSucceeds` states when it is a 200 |
| ChatApp.AnswerSucceeds | app/app.py:110-128 | the status is 200 exactly when every call made returned, and a failed run is still a 200; every other response is the 500 error |
| ChatApp.Exchange | app/app.py:95-115 | the calls `chat` makes on a known thread, stopping at the first that raises and not listing after a failed run; `ExchangeStaysOnThread` and `ExchangeCreatesNothing` state what they are |
| ChatApp.ExchangeStaysOnThread | app/app.py:95-115 | once the thread is known, every call is about that thread and none creates a thread |
| ChatApp.ExchangeCreatesNothing | app/app.py:95-115 | the calls after the thread is known hold no create call |
| ChatApp.SessionLifecycle | app/app.py:85-148 | two messages on one session use one thread and make one create call; a second delete of the session gives 404 |
| KubernetesTools.PodLines | app/kubernetes_tools.py:29 | one `name (Status: phase)` line per pod, in list order |
| KubernetesTools.PodNames | app/kubernetes_tools.py:60 | one name per pod, in list order |
| KubernetesTools.ListKubernetesPods | app/kubernetes_tools.py:9-37 | `list_kubernetes_pods`: the report of a namespace with pods, split into lines, is the header followed by one `name (Status: phase)` line per pod in list order; `EmptyNamespace` and `ListingFailure` state the other outcomes |
| KubernetesTools.EmptyNamespace | app/kubernetes_tools.py:26-27 | an empty namespace gives `No pods found in namespace '<ns>'.` from both tools (lines 57-58 for the restart), and nothing is deleted |
| KubernetesTools.ListingFailure | app/kubernetes_tools.py:32-37 | a failed config load or listing gives its failure message from both tools (lines 73-78 for the restart), whatever was asked, and nothing is deleted |
| KubernetesTools.FailureTextsDistinct | app/kubernetes_tools.py:32-37 | two failures give the same message exactly when they are the same failure |
| KubernetesTools.RestartAllPods | app/kubernetes_tools.py:41-78 | `restart_all_pods`: at most one delete is issued, and one is issued exactly when the call is confirmed and the listing succeeded with pods; the lemmas below state each reply |
| KubernetesTools.PreviewReply | app/kubernetes_tools.py:57-64 | without `confirm`, a namespace with pods gets the preview header, the pod names one per line and the confirm hint, and nothing is deleted |
| KubernetesTools.DefaultCallPreviews | app/kubernetes_tools.py:41-64 | a call with no arguments previews the `default` namespace with the confirm hint and deletes nothing |
| KubernetesTools.PreviewLines | app/kubernetes_tools.py:60-61 | the preview, split into lines, is its header followed by the pod names in list order |
| KubernetesTools.RestartCount | app/kubernetes_tools.py:66-71 | a confirmed restart whose delete returns reports a numeral that reads back as the number of pods listed |
| KubernetesTools.RestartDeleteFails | app/kubernetes_tools.py:66-78 | a confirmed restart whose delete raises reports the failure after issuing the one delete |

## Left out

- Flask routing, CORS, reading the JSON body, `jsonify` and the `print` logging are not modelled. A response is a status code with one key and its string value.
- Building the Azure client, looking up the agent and registering its tools at import time are not modelled, because they are calls into the Azure SDK.
- The agent service calls (create thread, post message, run, list, delete) are inputs giving their outcome, so the calls themselves are not modelled. Which exception is raised does not matter, because every exception gives the same 500 response.
- The Kubernetes client calls are not modelled. Loading the config, listing and deleting are inputs. The `@tool` decorator is not modelled. The three `except` clauses become the three kinds of `Failure`.
- `app/remove_tools/remove_tools.py` and `app/__init__.py` are not part of this model: the first is a one-shot SDK script and the second only re-exports names.
- Concurrent requests racing on `sessions` are not modelled. Requests are sequential method calls.
- Citations.IsDigit: `\d` is read as the ASCII digits 0-9. In a Python `str` pattern it also matches other Unicode decimal digits. This shapes `Citations.DigitRun`, `DigitRunExact`, `MatchCitation`, `MatchCitationIff` and `StripCitations`: a marker written with other decimal digits is kept.
- Text.Strip: whitespace is the fixed set of code points that Python's `str.isspace` accepts. The Unicode database behind it is not modelled.
- ChatApp.SessionStore.Chat: the message and session id are optional strings. A JSON body whose values are not strings is outside the model.
- ChatApp.SessionStore.Chat: a listed message is its role and its text contents, in order; the reply reads the value of the first one.
- KubernetesTools.ListKubernetesPods: the line-by-line reading holds only when no name, phase or namespace contains a line break. The text itself is defined for every input.
- KubernetesTools.PreviewLines: the same condition applies as for `ListKubernetesPods`.
- KubernetesTools.ListKubernetesPods: a pod's phase is a string. A phase that is `None` appears as whatever string the caller supplies, such as `"None"`.
- Formatter.AppendParagraphs: the inner paragraph loop is a separate method that the outer loop calls. The list of fragments is an immutable sequence rebuilt one fragment at a time; Python's `append` on a local list that nothing else refers to has the same effect.
