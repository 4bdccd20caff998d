/** The deterministic part of `ui/interface.py`: normalising the chat
    history Gradio hands back, one chat turn, and the service list shown in
    the side panel. The widgets, the event wiring and the clock are not
    modelled; the chatbot's answer to a message is a function parameter
    `answer`, and the measured duration a parameter `elapsed`. */
module Interface {
  import opened Wrappers
  import opened Text
  import opened Services
  import opened Rag
  import Ranking
  import Groq
  import Chatbot

  /** A value found inside a history entry, with what `str()` makes of it. */
  datatype Datum = Str(s: string) | Shown(repr: string)

  /** `str(x)`. */
  function AsString(d: Datum): string {
    match d
    case Str(s) => s
    case Shown(repr) => repr
  }

  /** One entry of the history list: a dict, a list or tuple, or anything
      else. */
  datatype Entry =
    | DictEntry(fields: map<string, Datum>)
    | SeqEntry(elems: seq<Datum>)
    | OtherEntry(value: Datum)

  /** A message in the dict format: a dict with both a role and a content. */
  predicate IsMessage(e: Entry) {
    e.DictEntry? && "role" in e.fields && "content" in e.fields
  }

  predicate AllMessages(h: seq<Entry>) {
    forall i :: 0 <= i < |h| ==> IsMessage(h[i])
  }

  lemma AllMessagesAppend(a: seq<Entry>, b: seq<Entry>)
    requires AllMessages(a) && AllMessages(b)
    ensures AllMessages(a + b)
  {
    forall i | 0 <= i < |a + b|
      ensures IsMessage((a + b)[i])
    {
      if i < |a| {
        assert (a + b)[i] == a[i];
      } else {
        assert (a + b)[i] == b[i - |a|];
      }
    }
  }

  /** The message `{'role': role, 'content': content}`. */
  function Message(role: string, content: string): (e: Entry)
    ensures IsMessage(e)
  {
    DictEntry(map["role" := Str(role), "content" := Str(content)])
  }

  /** What one history entry turns into: a message is kept as it is, a pair
      becomes a user message and an assistant message holding the `str()` of
      its two parts, and anything else is dropped. */
  function NormalizeEntry(e: Entry): (r: seq<Entry>)
    ensures AllMessages(r)
    ensures IsMessage(e) ==> r == [e]
    ensures !IsMessage(e) && !IsPair(e) ==> r == []
    ensures IsPair(e) ==>
              r == [Message("user", AsString(e.elems[0])), Message("assistant", AsString(e.elems[1]))]
  {
    match e
    case DictEntry(fields) => if "role" in fields && "content" in fields then [e] else []
    case SeqEntry(elems) =>
      if |elems| == 2 then
        [Message("user", AsString(elems[0])), Message("assistant", AsString(elems[1]))]
      else []
    case OtherEntry(_) => []
  }

  /** `f` applied to each element of `xs` in turn, the results concatenated. */
  function FlatMap<T, U>(xs: seq<T>, f: T -> seq<U>): seq<U> {
    if xs == [] then [] else FlatMap(xs[..|xs| - 1], f) + f(xs[|xs| - 1])
  }

  lemma {:induction false} FlatMapAppend<T, U>(a: seq<T>, b: seq<T>, f: T -> seq<U>)
    ensures FlatMap(a + b, f) == FlatMap(a, f) + FlatMap(b, f)
    decreases |b|
  {
    if b == [] {
      assert a + b == a;
    } else {
      var init := b[..|b| - 1];
      assert (a + b)[..|a + b| - 1] == a + init;
      assert (a + b)[|a + b| - 1] == b[|b| - 1];
      FlatMapAppend(a, init, f);
    }
  }

  /** Each entry normalised in turn, the results concatenated in order. */
  function NormalizeEntries(h: seq<Entry>): seq<Entry> {
    FlatMap(h, NormalizeEntry)
  }

  /** Normalising yields messages only. */
  lemma {:induction false} NormalizedAreMessages(h: seq<Entry>)
    ensures AllMessages(NormalizeEntries(h))
    decreases |h|
  {
    if h != [] {
      NormalizedAreMessages(h[..|h| - 1]);
      AllMessagesAppend(NormalizeEntries(h[..|h| - 1]), NormalizeEntry(h[|h| - 1]));
    }
  }

  /** `normalize_history(history)`: a missing or empty history gives the
      empty list; otherwise each entry is normalised in turn, in order. */
  function Normalize(history: Option<seq<Entry>>): (r: seq<Entry>)
    ensures AllMessages(r)
    ensures history.None? ==> r == []
  {
    match history
    case None => []
    case Some(h) => NormalizedAreMessages(h); NormalizeEntries(h)
  }

  /** Normalising distributes over concatenation: entries are handled one
      at a time and keep their order. */
  lemma NormalizeAppend(a: seq<Entry>, b: seq<Entry>)
    ensures NormalizeEntries(a + b) == NormalizeEntries(a) + NormalizeEntries(b)
  {
    FlatMapAppend(a, b, NormalizeEntry);
  }

  /** A list or tuple of exactly two elements. */
  predicate IsPair(e: Entry) {
    e.SeqEntry? && |e.elems| == 2
  }

  /** The normalised history has one message per kept dict and two per
      pair. */
  lemma {:induction false} NormalizeLength(h: seq<Entry>)
    ensures |NormalizeEntries(h)| == Count(h, IsMessage) + 2 * Count(h, IsPair)
    decreases |h|
  {
    if h != [] {
      var init := h[..|h| - 1];
      var last := h[|h| - 1];
      NormalizeLength(init);
      assert h == init + [last];
      CountAppend(init, [last], IsMessage);
      CountAppend(init, [last], IsPair);
      assert Count([last], IsMessage) == (if IsMessage(last) then 1 else 0);
      assert Count([last], IsPair) == (if IsPair(last) then 1 else 0);
    }
  }

  /** A history already made of messages comes back unchanged. */
  lemma {:induction false} NormalizeKeepsMessages(h: seq<Entry>)
    requires AllMessages(h)
    ensures NormalizeEntries(h) == h
    decreases |h|
  {
    if h != [] {
      NormalizeKeepsMessages(h[..|h| - 1]);
      assert h == h[..|h| - 1] + [h[|h| - 1]];
    }
  }

  /** Normalising twice is normalising once. */
  lemma NormalizeIdempotent(history: Option<seq<Entry>>)
    ensures Normalize(Some(Normalize(history))) == Normalize(history)
  {
    NormalizeKeepsMessages(Normalize(history));
  }

  /** A message that is empty or only whitespace. */
  predicate Blank(msg: Option<string>) {
    msg.None? || Strip(msg.value) == ""
  }

  /** The assistant's message: the answer followed by the elapsed time,
      already formatted with two decimals. */
  function Timed(resp: string, elapsed: string): string {
    resp + "\n\n⚡ " + elapsed + "s"
  }

  /** `chat_fn(msg, history, lang)`, with `answer` standing for
      `bot.answer(·, lang)` and `elapsed` for the formatted duration. A blank
      message leaves the history as it was (`[]` when there was none) and
      makes no request; an exception raised by the answer propagates; any
      other message appends itself and the timed answer to the normalised
      history. The input box is cleared whenever the turn returns. */
  function ChatTurn(msg: Option<string>, history: Option<seq<Entry>>,
                    answer: string -> Result<string, RagError>, elapsed: string)
    : (r: Result<(seq<Entry>, string), RagError>)
    ensures r.Success? ==> r.value.1 == ""
    ensures Blank(msg) ==> r == Success((history.GetOr([]), ""))
    ensures !Blank(msg) && answer(msg.value).Failure? ==> r == Failure(answer(msg.value).error)
    ensures !Blank(msg) && answer(msg.value).Success? ==>
              && r.Success?
              && |r.value.0| == |Normalize(history)| + 2
              && r.value.0[..|r.value.0| - 2] == Normalize(history)
              && r.value.0[|r.value.0| - 2] == Message("user", msg.value)
              && r.value.0[|r.value.0| - 1] == Message("assistant", Timed(answer(msg.value).value, elapsed))
              && AllMessages(r.value.0)
  {
    if Blank(msg) then Success((history.GetOr([]), ""))
    else
      match answer(msg.value)
      case Failure(e) => Failure(e)
      case Success(resp) =>
        var before := Normalize(history);
        var after := before + [Message("user", msg.value), Message("assistant", Timed(resp, elapsed))];
        AppendTurn(before, msg.value, Timed(resp, elapsed));
        Success((after, ""))
  }

  /** Appending a user message and an assistant message to a list of
      messages. */
  lemma AppendTurn(before: seq<Entry>, user: string, assistant: string)
    requires AllMessages(before)
    ensures var after := before + [Message("user", user), Message("assistant", assistant)];
            && |after| == |before| + 2
            && after[..|after| - 2] == before
            && after[|after| - 2] == Message("user", user)
            && after[|after| - 1] == Message("assistant", assistant)
            && AllMessages(after)
  {
    var turn := [Message("user", user), Message("assistant", assistant)];
    var after := before + turn;
    assert after[..|after| - 2] == before;
    AllMessagesAppend(before, turn);
  }

  /** Two answered turns in a row: the second keeps the first turn's
      history intact and adds exactly its own two messages. */
  lemma ChatTurnsAccumulate(m1: string, m2: string, history: Option<seq<Entry>>,
                            answer: string -> Result<string, RagError>, t1: string, t2: string)
    requires !Blank(Some(m1)) && !Blank(Some(m2))
    requires answer(m1).Success? && answer(m2).Success?
    ensures ChatTurn(Some(m1), history, answer, t1).Success?
    ensures var h1 := ChatTurn(Some(m1), history, answer, t1).value.0;
            ChatTurn(Some(m2), Some(h1), answer, t2)
            == Success((h1 + [Message("user", m2), Message("assistant", Timed(answer(m2).value, t2))], ""))
  {
    var h1 := ChatTurn(Some(m1), history, answer, t1).value.0;
    NormalizeKeepsMessages(h1);
  }

  /** With an empty knowledge base every non-blank message makes the turn
      raise: `answer` fails before anything is appended. */
  lemma EmptyKbTurnRaises(m: string, history: Option<seq<Entry>>, lang: string, client: Groq.Client,
                          complete: (string, string) -> Groq.Reply, elapsed: string)
    requires !Blank(Some(m))
    ensures Ranking.IsArgsort([], [])
    ensures ChatTurn(Some(m), history, q => Chatbot.Answer([], q, [], [], lang, client, complete), elapsed)
            == Failure(EmptyMax)
  {
    assert Ranking.Range(0) == [];
  }

  const ServicesHeader: string := "### 📋 Services:\n"

  /** The bullet line of one catalog item. */
  function ServiceLine(item: CatalogItem, lang: string): string {
    "• " + Label(item.svc, lang)
  }

  /** `get_services(lang)`: the header line, then one bullet per service in
      catalog order, joined by newlines. */
  function ServiceList(cat: Catalog, lang: string): (r: string)
    ensures StartsWith(r, ServicesHeader)
  {
    var lines := [ServicesHeader] + seq(|cat|, i requires 0 <= i < |cat| => ServiceLine(cat[i], lang));
    JoinStartsWith(lines, "\n");
    Join(lines, "\n")
  }

  /** The list for an empty catalog is the header alone, and one more
      service adds one more line at the end. */
  lemma ServiceListSnoc(cat: Catalog, item: CatalogItem, lang: string)
    ensures ServiceList([], lang) == ServicesHeader
    ensures ServiceList(cat + [item], lang) == ServiceList(cat, lang) + "\n" + ServiceLine(item, lang)
  {
    var lines := [ServicesHeader] + seq(|cat|, i requires 0 <= i < |cat| => ServiceLine(cat[i], lang));
    var cat' := cat + [item];
    var lines' := [ServicesHeader] + seq(|cat'|, i requires 0 <= i < |cat'| => ServiceLine(cat'[i], lang));
    assert lines' == lines + [ServiceLine(item, lang)];
    JoinSnoc(lines, ServiceLine(item, lang), "\n");
  }
}
