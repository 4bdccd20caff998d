# mauritania-chatbot: retrieval and answer assembly in Dafny

This project models the deterministic core of the Mauritanian public-services
chatbot and proves properties of it. The chatbot answers a citizen's question
(in French or Arabic) about one service of a fixed catalog.

- **Retrieval.** `RAGSystem.search` ranks the knowledge base by embedding
  similarity. It then chooses one of three branches:
  - a *strong* match: the top-k entries scoring above 0.15;
  - a *keyword* fallback: the single entry whose keywords occur most often in
    the lower-cased question, ties going to the first in catalog order;
  - a *weak* fallback: the top-k entries above a minimum similarity.
- **Answer assembly.** `MauritaniaChatbot.answer` takes the first retrieved
  service. It asks the hosted model for a reply, or falls back to a local
  template. Either way it appends a source line.
- **Text helpers.** `clean_text` and `validate_language`.
- **Reply validation.** The response check in `GroqClient.generate`.
- **Chat window.** History normalisation, the chat-turn guard and the service
  list of the Gradio interface.

Modules, one per source file:

| file | module | models |
|---|---|---|
| `wrappers.dfy` | `Wrappers` | `Option` and `Result`, standing for `None` and for raised exceptions |
| `text.dfy` | `Text` | Python string primitives: `isspace`, `lower`, `in`, `strip`, `join`, `str(int)` |
| `services.dfy` | `Services` | service records with optional keys; the catalog as an ordered sequence |
| `ranking.dfy` | `Ranking` | `np.argsort(sims)[-top_k:][::-1]` |
| `rag.dfy` | `Rag` | `core/rag_system.py` |
| `groq.dfy` | `Groq` | the validation part of `core/groq_client.py` |
| `helpers.dfy` | `Helpers` | `utils/helpers.py` |
| `chatbot.dfy` | `Chatbot` | `core/chatbot.py` |
| `interface.dfy` | `Interface` | `normalize_history`, `chat_fn` and `get_services` of `ui/interface.py` |
| `scenarios.dfy` | `Scenarios` | worked examples of `search` |

What is a parameter rather than code:

- **Similarity scores.** The cosine similarities are an input `seq<real>`,
  one per knowledge-base entry.
- **Argsort order.** NumPy's default sort does not fix the order of equal
  scores, so the permutation `np.argsort` returns is also an input. It is
  constrained by `Ranking.IsArgsort`. `Ranking.StableArgsort` shows that such
  a permutation always exists.
- **Hosted model.** The chat-completion request, with extraction of its
  content, is a function `complete` from (system prompt, user message) to a
  `Groq.Reply`. A reply is either "raised" or "returned" some content.
- **Answer to a chat message.** In the interface, `bot.answer(·, lang)` is
  a function `answer` returning an answer or a raised error, and the
  formatted duration `f"{elapsed:.2f}"` is a string `elapsed`.
- **`str.isalpha`.** It is a parameter `isAlpha`.
- **Configuration.** `RAG_TOP_K = 2`, `RAG_SIMILARITY_THRESHOLD = 0.30` and
  `RAG_MIN_SIMILARITY = 0.05` from `config.py` are the constants
  `Rag.DefaultTopK`, `Rag.DefaultThreshold` and `Rag.DefaultMinSimilarity`.
  `Rag.Search` takes all three as parameters.

Behaviour of the code that is easy to misread, and that the model keeps:

- **Keyword tie-break.** On a tie the first maximal entry in catalog order
  wins, not the last: Python's `max` over a dict returns the first maximal
  key in insertion order.
- **Missing description.** `_build_kb` reads `svc['description']`, so a
  record without a description makes building raise. `Rag.BuildKb` returns
  `Failure(MissingDescription(id))` for the first such record. The other
  builders read the description with `.get(..., '')`.
- **Empty knowledge base.** `max` of an empty dict raises. So `search`
  returns `Failure(EmptyMax)` whenever it reaches the keyword step with an
  empty knowledge base, and so does `answer`.

## Model

| member | source | states |
|---|---|---|
| Rag.BuildKb | mauritania-chatbot/core/rag_system.py:20-24 | succeeds iff every record has a description; then one entry per catalog item, in catalog order, with the item's id and record and the text `Service: {name_fr} / {name_ar}. Description: {description}`; otherwise fails naming the first record without a description |
| Rag.MatchCount | mauritania-chatbot/core/rag_system.py:35-36 | the keyword count of an entry never exceeds its number of keywords |
| Rag.MatchCountCountsPositions | mauritania-chatbot/core/rag_system.py:35-36 | the keyword count equals the number of keyword positions whose lower-cased keyword is a substring of the lower-cased query |
| Rag.KeywordScores | mauritania-chatbot/core/rag_system.py:31-37 | one count per knowledge-base entry, in order; each count is the number of keyword positions of that entry whose lower-cased keyword occurs in the lower-cased query; a count is 0 iff none of the entry's keywords occurs (so a record without keywords counts 0) |
| Rag.MatchCountZeroIff | mauritania-chatbot/core/rag_system.py:35-36 | the keyword count is 0 iff no lower-cased keyword is a substring of the lower-cased query |
| Rag.ArgMaxFrom | mauritania-chatbot/core/rag_system.py:39 | scanning on from a first maximum of a prefix yields a first maximum of the whole sequence |
| Rag.FirstArgMax | mauritania-chatbot/core/rag_system.py:39 | returns the first position holding the largest count, which is what `max` over the insertion-ordered dict returns |
| Rag.KeywordMatch | mauritania-chatbot/core/rag_system.py:29-44 | fails iff the knowledge base is empty; otherwise at most one entry; empty iff every count is 0; a returned entry is the first one with the largest count, and that count is positive |
| Ranking.TopIndices | mauritania-chatbot/core/rag_system.py:64 | `min(k, n)` indices for `k >= 1`, all `n` for `k = 0`, `n + k` (at least 0) for negative `k`; distinct; best first; no index left out scores more than one selected |
| Ranking.SuffixDominates | mauritania-chatbot/core/rag_system.py:64 | the reversed suffix of an argsort permutation scores at least as much as every index outside it |
| Ranking.ReversedSuffix | mauritania-chatbot/core/rag_system.py:64 | the reversed suffix of an argsort permutation has distinct indices, best first, and no index outside it scores more than one inside |
| Ranking.TopIsGlobalMax | mauritania-chatbot/core/rag_system.py:64 | when anything is selected, the first selected index has the highest score of all |
| Ranking.SliceStart | mauritania-chatbot/core/rag_system.py:64 | the start of `[-k:]` is Python's general slice-start rule (negative index counted from the end and clamped at 0, non-negative index clamped at `n`) applied to `-k`; hence `min(k, n)` elements are kept for `k >= 1`, all for `k = 0`, and the first `-k` are dropped for `k < 0` |
| Ranking.ArgsortFacts | mauritania-chatbot/core/rag_system.py:64 | an argsort permutation has one index per score, each exactly once |
| Ranking.StableArgsort | mauritania-chatbot/core/rag_system.py:64 | every score vector has an argsort permutation |
| Ranking.SortByScore | mauritania-chatbot/core/rag_system.py:64 | the result is a rearrangement of the given indices, in non-decreasing score order |
| Ranking.InsertByScore | mauritania-chatbot/core/rag_system.py:64 | inserting one index into an ascending list adds exactly that index and keeps the list ascending |
| Ranking.Reverse | mauritania-chatbot/core/rag_system.py:64 | `[::-1]`: same length, element `i` is element `n - 1 - i` of the input |
| Rag.Ranked | mauritania-chatbot/core/rag_system.py:64-65 | `top_results`: `min(top_k, n)` entries for `top_k >= 1` and all `n` for `top_k = 0`; every element is some knowledge-base entry paired with its own score; scores never increase along the list; no entry left out scores more than any entry kept |
| Rag.AboveIsCut | mauritania-chatbot/core/rag_system.py:69 | on a best-first list, the order-preserving filter `score > bound` keeps exactly the longest prefix scoring above the bound |
| Rag.Above | mauritania-chatbot/core/rag_system.py:69 | the filtered list is never longer than the ranked list |
| Rag.Search | mauritania-chatbot/core/rag_system.py:46-78 | strong iff the first ranked score reaches the threshold, and then the ranked entries above 0.15; keyword iff not strong and the keyword match found an entry, and then that single entry; otherwise weak, with the ranked entries above the minimum similarity; fails iff not strong and the knowledge base is empty; every returned entry is in the knowledge base |
| Rag.StrongIffSomeScoreReaches | mauritania-chatbot/core/rag_system.py:64-68 | if anything is ranked, the strong branch fires iff some entry's score reaches the threshold |
| Rag.ThresholdMonotone | mauritania-chatbot/core/rag_system.py:68-69 | lowering the threshold keeps a strong answer as it is |
| Rag.StrongIgnoresQuery | mauritania-chatbot/core/rag_system.py:68-69 | a strong answer does not depend on the question's text |
| Scenarios.KeywordFallbackExample | mauritania-chatbot/core/rag_system.py:68-75 | two low scores and a question containing "travel document": the keyword branch answers with the passport service alone |
| Scenarios.TravelKeywordMatch | mauritania-chatbot/core/rag_system.py:29-44 | the keyword match for that question picks the passport service |
| Scenarios.TravelQueryHasKeyword | mauritania-chatbot/core/rag_system.py:35-36 | the lower-cased question contains the lower-cased keyword |
| Scenarios.WeakEmptyExample | mauritania-chatbot/core/rag_system.py:72-78 | scores below the minimum and no keywords: the weak branch answers with nothing |
| Scenarios.WeakRanking | mauritania-chatbot/core/rag_system.py:64-68 | with the scores 0.01 and 0.02 both entries are ranked, the second first, and the strong branch does not fire |
| Scenarios.TwoRanked | mauritania-chatbot/core/rag_system.py:64-65 | two entries in ascending score order are both kept with their scores, the second first |
| Scenarios.TravelScores | mauritania-chatbot/core/rag_system.py:31-37 | for the travel question the passport service counts at least one keyword and the keyword-less service counts none |
| Helpers.CleanText | mauritania-chatbot/utils/helpers.py:7-18 | empty input gives `""`; the output has no two adjacent whitespace characters, only plain spaces, no newline, no leading or trailing whitespace, and the non-whitespace characters of the input in order |
| Helpers.CleanTextIdempotent | mauritania-chatbot/utils/helpers.py:7-18 | cleaning a cleaned text changes nothing |
| Helpers.CleanTextIsWords | mauritania-chatbot/utils/helpers.py:7-18 | `clean_text(text)` equals `" ".join(text.split())`: the words of the text separated by exactly one space each |
| Helpers.CleanIsStripCollapse | mauritania-chatbot/utils/helpers.py:12-18 | on non-empty text the newline pass has nothing left to do, so cleaning is stripping the collapsed text |
| Helpers.StripCollapseIsWords | mauritania-chatbot/utils/helpers.py:13-18 | stripping the collapsed text leaves the words joined by single spaces |
| Helpers.CollapseAsWords | mauritania-chatbot/utils/helpers.py:13 | `re.sub(r'\s+', ' ', s)` is the words of `s` joined by single spaces, plus one space in front iff `s` starts with whitespace and one at the end iff `s` ends with whitespace after a word |
| Helpers.WordsAreWords | mauritania-chatbot/utils/helpers.py:13 | every element of `s.split()` is a non-empty run of non-whitespace characters, and there is none iff `s` is all whitespace |
| Helpers.JoinWordsBounded | mauritania-chatbot/utils/helpers.py:13-18 | words joined by single spaces are empty iff there are no words, and otherwise start and end with non-whitespace |
| Helpers.StripPadded | mauritania-chatbot/utils/helpers.py:18 | stripping whitespace padding from around a text without whitespace at its ends gives back that text |
| Helpers.TrimSpacePrefix | mauritania-chatbot/utils/helpers.py:18 | removing leading whitespace stops exactly at the first non-whitespace character |
| Helpers.TrimSpaceSuffix | mauritania-chatbot/utils/helpers.py:18 | removing trailing whitespace stops exactly at the last non-whitespace character |
| Helpers.CollapseWhitespace | mauritania-chatbot/utils/helpers.py:13 | `re.sub(r'\s+', ' ', ...)` leaves only plain spaces, never two in a row; keeps the non-whitespace characters in order; is empty iff its input is; starts with a space iff its input starts with whitespace |
| Helpers.CollapseFixpoint | mauritania-chatbot/utils/helpers.py:13 | a text with single plain spaces only is left unchanged by the collapse |
| Helpers.SquashNewlinesNoop | mauritania-chatbot/utils/helpers.py:16 | on a text without newlines, `re.sub(r'\n{3,}', '\n\n', ...)` changes nothing |
| Helpers.SquashNewlines | mauritania-chatbot/utils/helpers.py:16 | `re.sub(r'\n{3,}', '\n\n', s)` never lengthens the text, is empty iff its input is, and starts with a newline iff its input does |
| Helpers.SquashLeavesNoTriple | mauritania-chatbot/utils/helpers.py:16 | after the newline pass no three newlines stand in a row |
| Helpers.SquashKeepsNonSpace | mauritania-chatbot/utils/helpers.py:16 | the newline pass keeps every non-whitespace character, in order |
| Helpers.SquashKeepsNonNewline | mauritania-chatbot/utils/helpers.py:16 | the newline pass keeps every character other than the newline, spaces and tabs included, in order |
| Helpers.SquashNoTripleNoop | mauritania-chatbot/utils/helpers.py:16 | a text with no three newlines in a row is left unchanged, so runs of one or two newlines survive |
| Helpers.NewlineRun | mauritania-chatbot/utils/helpers.py:16 | the length of the run of newlines at the start of a text |
| Helpers.PlainSpacesHaveNoNewline | mauritania-chatbot/utils/helpers.py:13-16 | after the collapse no newline is left, so the newline pass has nothing to do |
| Helpers.StripCollapsed | mauritania-chatbot/utils/helpers.py:13-18 | stripping a collapsed text keeps it collapsed and keeps its non-whitespace characters |
| Helpers.CollapsedSlice | mauritania-chatbot/utils/helpers.py:13-18 | a slice of a collapsed text with only whitespace around it is collapsed and has the same non-whitespace characters |
| Helpers.SliceKeepsCollapsed | mauritania-chatbot/utils/helpers.py:13-18 | any slice of a collapsed text is collapsed |
| Helpers.StripNoop | mauritania-chatbot/utils/helpers.py:18 | a text with no leading or trailing whitespace is its own strip |
| Helpers.NonSpaceAppend | mauritania-chatbot/utils/helpers.py:7-18 | the non-whitespace characters of a concatenation are those of its parts |
| Helpers.NonSpaceOfBlank | mauritania-chatbot/utils/helpers.py:7-18 | an all-whitespace text has no non-whitespace characters |
| Helpers.NonSpaceOfSlice | mauritania-chatbot/utils/helpers.py:18 | removing whitespace at both ends keeps every non-whitespace character |
| Helpers.ValidateLanguage | mauritania-chatbot/utils/helpers.py:21-44 | false for empty text; for "ar", true iff some character is in U+0600..U+06FF and fewer than 30% of the characters are alphabetic outside that block; for other languages, true iff some character is an ASCII letter |
| Helpers.ForeignLetters | mauritania-chatbot/utils/helpers.py:39 | the count of alphabetic characters outside U+0600..U+06FF is at most the length, and is 0 iff every character is non-alphabetic or in that block |
| Helpers.ArabicTextValidates | mauritania-chatbot/utils/helpers.py:35-40 | a text with an Arabic character and no alphabetic character outside the Arabic block validates as "ar" |
| Groq.IsResponseInLangSpec | mauritania-chatbot/core/groq_client.py:89-96 | false for missing or non-string content; for "ar", true iff some character is in U+0600..U+06FF; for other languages, true iff some character is an ASCII letter |
| Groq.IsResponseInLang | mauritania-chatbot/core/groq_client.py:89-96 | a response passes the check only when it is a non-empty string |
| Groq.Generate | mauritania-chatbot/core/groq_client.py:110-136 | `None` without an available client; a value iff the client is available, the request returned, and the content passes the language check; the value is the stripped content |
| Groq.GenerateResultInLang | mauritania-chatbot/core/groq_client.py:128-133 | a value returned by `generate` is non-empty and still passes the language check after stripping |
| Groq.InLangSurvivesStrip | mauritania-chatbot/core/groq_client.py:128-133 | content that passes the language check is non-empty after stripping and still passes the check |
| Groq.StripKeepsClass | mauritania-chatbot/core/groq_client.py:133 | stripping keeps any character that is not whitespace, so the result is non-empty |
| Groq.ValidateImpliesInLang | mauritania-chatbot/core/groq_client.py:89-96 | whatever `validate_language` accepts passes the response check; for languages other than "ar" the two agree |
| Chatbot.SectionFor | mauritania-chatbot/core/chatbot.py:45-68 | the section a key contributes is of that key's kind |
| Chatbot.SectionForIffPresent | mauritania-chatbot/core/chatbot.py:45-68 | a key contributes a section iff the record has that key |
| Chatbot.SectionsOf | mauritania-chatbot/core/chatbot.py:45-68 | every section comes from a present candidate key with its value; every present candidate key yields its section; sections are in the fixed key order |
| Chatbot.SectionsStep | mauritania-chatbot/core/chatbot.py:45-68 | adding the next key in front keeps those three properties |
| Chatbot.StepCovers | mauritania-chatbot/core/chatbot.py:45-68 | every present key has its section once the first key's section and the later sections are all there |
| Chatbot.RestComesLater | mauritania-chatbot/core/chatbot.py:45-68 | the sections of the later keys come from keys ranked after the first |
| Chatbot.SectionsOfAgree | mauritania-chatbot/core/chatbot.py:45-68 | records that agree on the candidate keys have the same sections |
| Chatbot.Context | mauritania-chatbot/core/chatbot.py:41-70 | the section-by-section construction equals the flat text `Service: {name_fr} / {name_ar}\n\nDescription: {description}\n\n`, then, each only when its key is present: `Documents requis:` with one `- ` line per document and a blank line, `Étapes:` with numbered lines from 1 and a blank line, `Méthodes de paiement:` with one line per method and a blank line, then the `Coût`, `Durée` and `Bureau` lines |
| Chatbot.RenderSectionsOf | mauritania-chatbot/core/chatbot.py:45-68 | rendering the sections of a record is rendering, in key order, the block of each present key |
| Chatbot.NumberedAt | mauritania-chatbot/core/chatbot.py:51-55 | step `i` of the list (from 0) is written as `{start + i}. {step}` on its own line, between the earlier and the later steps |
| Chatbot.NumberedAppend | mauritania-chatbot/core/chatbot.py:53-54 | numbering a concatenation continues the count across the join |
| Chatbot.LinesAt | mauritania-chatbot/core/chatbot.py:22-23 | each document gets exactly its own bullet line, at its place in the list |
| Chatbot.LinesAppend | mauritania-chatbot/core/chatbot.py:22-23 | the lines of a concatenation are the lines of its parts |
| Chatbot.RenderAllAppend | mauritania-chatbot/core/chatbot.py:41-70 | rendering a concatenation of sections renders each part |
| Chatbot.RenderThree | mauritania-chatbot/core/chatbot.py:16-39 | three sections are rendered one after the other |
| Chatbot.LocalReply | mauritania-chatbot/core/chatbot.py:16-39 | the section-by-section construction equals the flat text: for "ar", `**{name_ar}**\n\n{description}\n\n`, then the Arabic documents header with one `• ` line per document, the Arabic cost line and the Arabic duration line, each only when present; for any other language the same with the French name and labels |
| Chatbot.LocalReplyIgnoresOtherKeys | mauritania-chatbot/core/chatbot.py:16-39 | steps, payment methods, office and keywords never change the local reply |
| Chatbot.LocalSectionsFull | mauritania-chatbot/core/chatbot.py:20-27 | a record with documents, cost and duration yields exactly those three sections, in that order |
| Chatbot.LocalReplyFull | mauritania-chatbot/core/chatbot.py:16-39 | for such a record the reply is the head, the documents block, the cost line and the duration line, in that order |
| Chatbot.SystemPrompt | mauritania-chatbot/core/chatbot.py:72-95 | the system prompt is Arabic for "ar" and French otherwise, and passes the response language check for that language |
| Chatbot.NotFound | mauritania-chatbot/core/chatbot.py:111-115 | the not-found message is Arabic for "ar" and French otherwise, and passes the response language check for that language |
| Chatbot.FixedRepliesInLang | mauritania-chatbot/core/chatbot.py:72-115 | each fixed text contains a character of its language: an Arabic-block character in the Arabic texts, an ASCII letter in the French ones |
| Chatbot.Prompt | mauritania-chatbot/core/chatbot.py:123 | the user message sent to the model starts with the context, continues with exactly the 12 characters `\n\nQuestion: ` and ends with the question, nothing else |
| Chatbot.AnswerFromResults | mauritania-chatbot/core/chatbot.py:97-133 | no result gives the fixed not-found message (Arabic for "ar", French otherwise); otherwise, if the model was asked and its reply passed the checks, the stripped reply, else the local reply of the first result's service; either way followed by `\n\n📚 Source: ` and that service's name |
| Chatbot.AnswerUsesFirstOnly | mauritania-chatbot/core/chatbot.py:117 | results after the first never influence the answer |
| Chatbot.Answer | mauritania-chatbot/core/chatbot.py:108-133 | on an empty knowledge base every question fails; otherwise an answer is produced |
| Interface.NormalizeEntry | mauritania-chatbot/ui/interface.py:23-34 | a message dict is kept as it is; a two-element list or tuple becomes a user message then an assistant message with the `str()` of its parts; anything else is dropped |
| Interface.NormalizedAreMessages | mauritania-chatbot/ui/interface.py:22-35 | every entry of a normalised history is a message with a role and a content |
| Interface.Normalize | mauritania-chatbot/ui/interface.py:15-35 | the result consists of messages only; a missing history gives `[]` |
| Interface.NormalizeAppend | mauritania-chatbot/ui/interface.py:22-35 | entries are normalised one at a time, keeping their relative order |
| Interface.AllMessagesAppend | mauritania-chatbot/ui/interface.py:47-49 | appending messages to messages gives messages |
| Interface.FlatMapAppend | mauritania-chatbot/ui/interface.py:23-34 | handling a list item by item distributes over concatenation |
| Interface.NormalizeLength | mauritania-chatbot/ui/interface.py:22-35 | the output length is the number of kept message dicts plus twice the number of two-element pairs |
| Interface.NormalizeKeepsMessages | mauritania-chatbot/ui/interface.py:24-26 | a history of messages comes back unchanged |
| Interface.NormalizeIdempotent | mauritania-chatbot/ui/interface.py:15-35 | normalising twice is normalising once |
| Interface.Message | mauritania-chatbot/ui/interface.py:31-32 | a built message has both a role and a content |
| Interface.ChatTurn | mauritania-chatbot/ui/interface.py:37-51 | the textbox is cleared whenever the turn returns; a missing, empty or whitespace-only message returns the history as it was (or `[]`); otherwise an error raised by the answer propagates unchanged, and a returned answer gives the normalised history followed by exactly the user message and the assistant message carrying the answer and the `⚡ {elapsed}s` line, all entries being messages |
| Interface.EmptyKbTurnRaises | mauritania-chatbot/ui/interface.py:37-51 | on an empty knowledge base a non-blank message makes the turn raise the empty-`max` error |
| Interface.ChatTurnsAccumulate | mauritania-chatbot/ui/interface.py:47-51 | a second turn keeps the first turn's history intact and adds exactly its own two messages |
| Interface.ServiceList | mauritania-chatbot/ui/interface.py:53-59 | the service list starts with the header `### 📋 Services:` |
| Interface.ServiceListSnoc | mauritania-chatbot/ui/interface.py:55-59 | the list of an empty catalog is the header alone; each further service adds the line `• {name}` at the end, after a newline, with the Arabic name for "ar" and the French one otherwise |
| Text.Strip | mauritania-chatbot/utils/helpers.py:18 | `str.strip()`: the result is the slice after the leading whitespace run, with only whitespace after it, and has no whitespace at either end |
| Text.TrimmedIsSlice | mauritania-chatbot/utils/helpers.py:18 | trimming the front and then the back leaves a slice with only whitespace around it |
| Text.StripEmptyIffBlank | mauritania-chatbot/ui/interface.py:39 | `msg.strip()` is empty iff the message is all whitespace |
| Text.TrimStart | mauritania-chatbot/utils/helpers.py:18 | drops exactly the leading whitespace |
| Text.TrimEnd | mauritania-chatbot/utils/helpers.py:18 | drops exactly the trailing whitespace |
| Text.AnyIffExists | mauritania-chatbot/core/groq_client.py:94-96 | `re.search` for a character class succeeds iff some character is in the class |
| Text.AnyAt | mauritania-chatbot/core/groq_client.py:94-96 | one qualifying character is enough for the search to succeed |
| Text.Count | mauritania-chatbot/utils/helpers.py:39 | `sum(1 for c in s if p(c))` is at most the length, and is 0 iff no element qualifies |
| Text.CountAppend | mauritania-chatbot/utils/helpers.py:39 | counting over a concatenation adds the counts |
| Text.ContainsIffOccurs | mauritania-chatbot/core/rag_system.py:36 | `kw in query` holds iff the keyword occurs at some position of the query |
| Text.Lower | mauritania-chatbot/core/rag_system.py:35 | `str.lower()` keeps the length, leaves no ASCII capital, turns each ASCII or Latin-1 capital (not U+00D7) into its small letter 32 code points on, and changes no other character |
| Text.LowerIdempotent | mauritania-chatbot/core/rag_system.py:35 | lower-casing twice is lower-casing once |
| Text.JoinSnoc | mauritania-chatbot/ui/interface.py:59 | joining one more part appends the separator and that part |
| Text.JoinStartsWith | mauritania-chatbot/ui/interface.py:59 | a joined list starts with its first part |
| Text.NatToString | mauritania-chatbot/core/chatbot.py:54 | `str(i)` for a natural number: non-empty decimal digits without a leading zero |
| Text.NatToStringRoundTrip | mauritania-chatbot/core/chatbot.py:54 | reading the digits back gives the number |

## Left out

- Embedding and cosine similarity (`SentenceTransformer`, `np.dot`, norms): floating-point numerics over an external model; the scores are an input.
- NaN scores: the scores are reals, so every comparison is defined.
- The order `np.argsort` gives equal scores: it is an input, constrained by `IsArgsort`.
- The Groq SDK client construction, the connection test and the chat-completion request: network I/O, abstracted as the function `complete`.
- `_extract_content_from_response`: it probes SDK response objects for their text. Its result is part of `complete`'s reply.
- The exception handler's error message in `generate`: console output only; the `None` result is modelled.
- The Gradio layout, quick-question buttons, event wiring and `create_ui`: user interface.
- The wall-clock reading in `chat_fn`: a clock; the formatted duration is the parameter `elapsed`, and the model states where it goes in the reply.
- `main.py`, `config.py` loading and `.env` handling: process plumbing; the three retrieval settings are constants.
- The `services.database` catalog is not part of this model: it is an input sequence of records.
- Duplicate service ids: the catalog is a dictionary, so `Rag.KeywordScores` treats entries by position.
- Text.Lower: only ASCII and Latin-1 upper-case letters are lowered; the rest of Unicode case mapping is not modelled.
- Text.IsSpace: the whitespace set is fixed to the characters Python's `str.isspace` accepts; `\s` in `re` is taken to match the same set.
- Helpers.ValidateLanguage: `str.isalpha` is the parameter `isAlpha`, and `count < len * 0.3` is compared exactly as `10 * count < 3 * len`; which agrees with the floating-point comparison whenever the rounding error of `len * 0.3` is below 0.1, as it is for any text a chat carries.
- Interface.ChatTurn: the answer is the parameter `answer`, so the turn alone does not state which service the answer names; `Chatbot.Answer` and `Interface.EmptyKbTurnRaises` connect the two.
- Chatbot.Answer: the answer text itself is stated by `Chatbot.AnswerFromResults`; an exception raised by `search` (the empty knowledge base) reaches the caller of `answer`, as in the source.
- A key stored with the value `None` (rather than absent), for the description or any other optional key: records model a missing key, not a `None` value. The builders in `core/chatbot.py` test presence with `in`, so a present `None` would be printed or iterated by the source (iterating `None` raises), which the model does not represent.
