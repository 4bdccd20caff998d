/** Answer assembly of `core/chatbot.py`: the context handed to the language
    model, the local template reply, and the control flow of
    `MauritaniaChatbot.answer`. */
module Chatbot {
  import opened Wrappers
  import opened Text
  import opened Services
  import opened Ranking
  import opened Rag
  import opened Groq

  /** The optional keys of a service record that produce a section, in the
      order the context lists them. */
  datatype Field = Documents | Steps | PaymentMethods | Cost | Duration | Office

  function Rank(f: Field): nat {
    match f
    case Documents => 0
    case Steps => 1
    case PaymentMethods => 2
    case Cost => 3
    case Duration => 4
    case Office => 5
  }

  /** One rendered block of a reply, carrying the value of its key. */
  datatype Section =
    | DocsSection(docs: seq<string>)
    | StepsSection(steps: seq<string>)
    | PaymentSection(methods: seq<string>)
    | CostSection(cost: string)
    | DurationSection(duration: string)
    | OfficeSection(office: string)

  function FieldOf(s: Section): Field {
    match s
    case DocsSection(_) => Documents
    case StepsSection(_) => Steps
    case PaymentSection(_) => PaymentMethods
    case CostSection(_) => Cost
    case DurationSection(_) => Duration
    case OfficeSection(_) => Office
  }

  /** The section key `f` contributes, if the record has that key. */
  function SectionFor(svc: Service, f: Field): (r: Option<Section>)
    ensures r.Some? ==> FieldOf(r.value) == f
  {
    match f
    case Documents => if svc.documents.Some? then Some(DocsSection(svc.documents.value)) else None
    case Steps => if svc.steps.Some? then Some(StepsSection(svc.steps.value)) else None
    case PaymentMethods =>
      if svc.paymentMethods.Some? then Some(PaymentSection(svc.paymentMethods.value)) else None
    case Cost => if svc.cost.Some? then Some(CostSection(svc.cost.value)) else None
    case Duration => if svc.duration.Some? then Some(DurationSection(svc.duration.value)) else None
    case Office => if svc.office.Some? then Some(OfficeSection(svc.office.value)) else None
  }

  /** A key is present in the record exactly when it contributes a section. */
  lemma SectionForIffPresent(svc: Service, f: Field)
    ensures SectionFor(svc, f).Some? <==>
            match f
            case Documents => svc.documents.Some?
            case Steps => svc.steps.Some?
            case PaymentMethods => svc.paymentMethods.Some?
            case Cost => svc.cost.Some?
            case Duration => svc.duration.Some?
            case Office => svc.office.Some?
  {
  }

  /** The keys are listed in strictly increasing rank. */
  predicate InRankOrder(fs: seq<Field>) {
    forall i, j :: 0 <= i < j < |fs| ==> Rank(fs[i]) < Rank(fs[j])
  }

  /** Each section comes from a key of `order` that the record has, and
      carries that key's value. */
  predicate FromPresentKeys(svc: Service, order: seq<Field>, r: seq<Section>) {
    forall i :: 0 <= i < |r| ==> FieldOf(r[i]) in order && SectionFor(svc, FieldOf(r[i])) == Some(r[i])
  }

  /** Every key of `order` the record has yields its section. */
  predicate CoversPresentKeys(svc: Service, order: seq<Field>, r: seq<Section>) {
    forall k :: 0 <= k < |order| && SectionFor(svc, order[k]).Some? ==> SectionFor(svc, order[k]).value in r
  }

  /** The sections appear in the fixed order of their keys. */
  predicate SectionsInRankOrder(r: seq<Section>) {
    forall i, j :: 0 <= i < j < |r| ==> Rank(FieldOf(r[i])) < Rank(FieldOf(r[j]))
  }

  /** The sections of `svc` for the candidate keys `order`: a section for a
      key appears exactly when the record has that key, carrying its value,
      and the sections keep the order of the keys. */
  function SectionsOf(svc: Service, order: seq<Field>): (r: seq<Section>)
    requires InRankOrder(order)
    ensures FromPresentKeys(svc, order, r)
    ensures CoversPresentKeys(svc, order, r)
    ensures SectionsInRankOrder(r)
  {
    if order == [] then []
    else
      var rest := SectionsOf(svc, order[1..]);
      var head := SectionFor(svc, order[0]);
      SectionsStep(svc, order, head, rest);
      if head.Some? then [head.value] + rest else rest
  }

  /** The inductive step of `SectionsOf`. */
  lemma SectionsStep(svc: Service, order: seq<Field>, head: Option<Section>, rest: seq<Section>)
    requires order != [] && InRankOrder(order)
    requires head == SectionFor(svc, order[0])
    requires FromPresentKeys(svc, order[1..], rest)
    requires CoversPresentKeys(svc, order[1..], rest)
    requires SectionsInRankOrder(rest)
    ensures var r := if head.Some? then [head.value] + rest else rest;
            FromPresentKeys(svc, order, r) && CoversPresentKeys(svc, order, r) && SectionsInRankOrder(r)
  {
    RestComesLater(svc, order, rest);
    if head.Some? {
      var r := [head.value] + rest;
      ConsSection(svc, order, head.value, rest);
      StepCovers(svc, order, rest, r);
    } else {
      StepCovers(svc, order, rest, rest);
    }
  }

  /** The first key's section in front of the later keys' sections. */
  lemma ConsSection(svc: Service, order: seq<Field>, h: Section, rest: seq<Section>)
    requires order != [] && SectionFor(svc, order[0]) == Some(h)
    requires FromPresentKeys(svc, order[1..], rest) && SectionsInRankOrder(rest)
    requires forall i :: 0 <= i < |rest| ==> FieldOf(rest[i]) in order && Rank(order[0]) < Rank(FieldOf(rest[i]))
    ensures FromPresentKeys(svc, order, [h] + rest) && SectionsInRankOrder([h] + rest)
    ensures forall i :: 0 <= i < |rest| ==> rest[i] in [h] + rest
  {
    var r := [h] + rest;
    assert forall i :: 0 < i < |r| ==> r[i] == rest[i - 1];
  }

  /** Every present key of `order` has its section in `r` when `r` holds the
      first key's section (if any) and all of `rest`. */
  lemma StepCovers(svc: Service, order: seq<Field>, rest: seq<Section>, r: seq<Section>)
    requires order != []
    requires CoversPresentKeys(svc, order[1..], rest)
    requires SectionFor(svc, order[0]).Some? ==> SectionFor(svc, order[0]).value in r
    requires forall i :: 0 <= i < |rest| ==> rest[i] in r
    ensures CoversPresentKeys(svc, order, r)
  {
    forall k | 0 <= k < |order| && SectionFor(svc, order[k]).Some?
      ensures SectionFor(svc, order[k]).value in r
    {
      if k > 0 {
        assert order[k] == order[1..][k - 1];
      }
    }
  }

  /** The sections built for the later keys come from keys of `order` ranked
      after its first key. */
  lemma RestComesLater(svc: Service, order: seq<Field>, rest: seq<Section>)
    requires order != [] && InRankOrder(order)
    requires FromPresentKeys(svc, order[1..], rest)
    ensures forall i :: 0 <= i < |rest| ==> FieldOf(rest[i]) in order && Rank(order[0]) < Rank(FieldOf(rest[i]))
  {
    forall i | 0 <= i < |rest|
      ensures FieldOf(rest[i]) in order && Rank(order[0]) < Rank(FieldOf(rest[i]))
    {
      var k :| 0 <= k < |order[1..]| && order[1..][k] == FieldOf(rest[i]);
      assert order[k + 1] == FieldOf(rest[i]);
    }
  }

  /** Records that agree on the candidate keys have the same sections. */
  lemma {:induction false} SectionsOfAgree(s1: Service, s2: Service, order: seq<Field>)
    requires InRankOrder(order)
    requires forall f :: f in order ==> SectionFor(s1, f) == SectionFor(s2, f)
    ensures SectionsOf(s1, order) == SectionsOf(s2, order)
  {
    if order != [] {
      SectionsOfAgree(s1, s2, order[1..]);
    }
  }

  /** The keys the context lists, in its order. */
  const ContextOrder: seq<Field> := [Documents, Steps, PaymentMethods, Cost, Duration, Office]

  lemma ContextOrderRanked()
    ensures InRankOrder(ContextOrder)
    ensures ContextOrder == [Documents, Steps, PaymentMethods, Cost, Duration, Office]
  {
  }

  /** The keys the local reply lists, in its order. */
  const LocalOrder: seq<Field> := [Documents, Cost, Duration]

  /** One line `prefix + item + "\n"` per item, in order. */
  function Lines(prefix: string, items: seq<string>): string {
    if items == [] then "" else prefix + items[0] + "\n" + Lines(prefix, items[1..])
  }

  /** Lines of a concatenation are the concatenation of the lines. */
  lemma {:induction false} LinesAppend(prefix: string, a: seq<string>, b: seq<string>)
    ensures Lines(prefix, a + b) == Lines(prefix, a) + Lines(prefix, b)
  {
    if a == [] {
      assert a + b == b;
    } else {
      assert (a + b)[1..] == a[1..] + b;
      LinesAppend(prefix, a[1..], b);
    }
  }

  /** Every item gets exactly its own line, at its place in the list. */
  lemma LinesAt(prefix: string, items: seq<string>, i: int)
    requires 0 <= i < |items|
    ensures Lines(prefix, items) ==
            Lines(prefix, items[..i]) + prefix + items[i] + "\n" + Lines(prefix, items[i + 1..])
  {
    assert items == items[..i] + ([items[i]] + items[i + 1..]);
    LinesAppend(prefix, items[..i], [items[i]] + items[i + 1..]);
    assert ([items[i]] + items[i + 1..])[1..] == items[i + 1..];
  }

  /** `for i, step in enumerate(steps, start): f"{i}. {step}\n"`. */
  function Numbered(items: seq<string>, start: nat): string {
    if items == [] then ""
    else NatToString(start) + ". " + items[0] + "\n" + Numbered(items[1..], start + 1)
  }

  lemma {:induction false} NumberedAppend(a: seq<string>, b: seq<string>, start: nat)
    ensures Numbered(a + b, start) == Numbered(a, start) + Numbered(b, start + |a|)
  {
    if a == [] {
      assert a + b == b;
    } else {
      assert (a + b)[1..] == a[1..] + b;
      NumberedAppend(a[1..], b, start + 1);
    }
  }

  /** Steps are numbered consecutively in list order: step `i` (from 0)
      carries the number `start + i`. */
  lemma NumberedAt(items: seq<string>, start: nat, i: int)
    requires 0 <= i < |items|
    ensures Numbered(items, start) ==
            Numbered(items[..i], start) + NatToString(start + i) + ". " + items[i] + "\n"
            + Numbered(items[i + 1..], start + i + 1)
  {
    assert items == items[..i] + ([items[i]] + items[i + 1..]);
    NumberedAppend(items[..i], [items[i]] + items[i + 1..], start);
    assert ([items[i]] + items[i + 1..])[1..] == items[i + 1..];
  }

  /** Concatenation of the renderings of `ss`. */
  function RenderAll(ss: seq<Section>, render: Section -> string): string {
    if ss == [] then "" else render(ss[0]) + RenderAll(ss[1..], render)
  }

  lemma {:induction false} RenderAllAppend(a: seq<Section>, b: seq<Section>, render: Section -> string)
    ensures RenderAll(a + b, render) == RenderAll(a, render) + RenderAll(b, render)
  {
    if a == [] {
      assert a + b == b;
    } else {
      assert (a + b)[1..] == a[1..] + b;
      RenderAllAppend(a[1..], b, render);
    }
  }

  /** A section as it appears in the context given to the language model. */
  function ContextSection(s: Section): string {
    match s
    case DocsSection(docs) => "Documents requis:\n" + Lines("- ", docs) + "\n"
    case StepsSection(steps) => "Étapes:\n" + Numbered(steps, 1) + "\n"
    case PaymentSection(methods) => "Méthodes de paiement:\n" + Lines("", methods) + "\n"
    case CostSection(c) => "Coût: " + c + "\n"
    case DurationSection(d) => "Durée: " + d + "\n"
    case OfficeSection(o) => "Bureau: " + o + "\n"
  }

  /** The head of the context: both names and the description (empty when
      the record has none). */
  function ContextHead(svc: Service): string {
    "Service: " + svc.nameFr + " / " + svc.nameAr + "\n\nDescription: "
    + svc.description.GetOr("") + "\n\n"
  }

  /** `_build_context(svc)`: the head, then one section per present key in
      the order documents, steps, payment methods, cost, duration, office;
      the ensures spells the six key tests out one after the other. */
  function Context(svc: Service): (r: string)
    ensures StartsWith(r, ContextHead(svc))
    ensures r ==
            "Service: " + svc.nameFr + " / " + svc.nameAr + "\n\nDescription: "
            + svc.description.GetOr("") + "\n\n"
            + (if svc.documents.Some? then "Documents requis:\n" + Lines("- ", svc.documents.value) + "\n" else "")
            + (if svc.steps.Some? then "Étapes:\n" + Numbered(svc.steps.value, 1) + "\n" else "")
            + (if svc.paymentMethods.Some? then "Méthodes de paiement:\n" + Lines("", svc.paymentMethods.value) + "\n" else "")
            + (if svc.cost.Some? then "Coût: " + svc.cost.value + "\n" else "")
            + (if svc.duration.Some? then "Durée: " + svc.duration.value + "\n" else "")
            + (if svc.office.Some? then "Bureau: " + svc.office.value + "\n" else "")
  {
    var head := ContextHead(svc);
    var sections := RenderAll(SectionsOf(svc, ContextOrder), ContextSection);
    ContextPieces(svc);
    ContextPieceForms(svc);
    ConcatStartsWith(head, sections);
    head + sections
  }

  /** The rendering of key `f`'s section, or nothing when the record lacks
      the key. */
  function Piece(svc: Service, f: Field, render: Section -> string): string {
    match SectionFor(svc, f)
    case Some(s) => render(s)
    case None => ""
  }

  /** The pieces of the keys of `order`, one after the other. */
  function RenderKeys(svc: Service, order: seq<Field>, render: Section -> string): string {
    if order == [] then "" else Piece(svc, order[0], render) + RenderKeys(svc, order[1..], render)
  }

  /** Rendering the sections of `order` is rendering each key of `order` in
      turn, present or not. */
  lemma {:induction false} RenderSectionsOf(svc: Service, order: seq<Field>, render: Section -> string)
    requires InRankOrder(order)
    ensures RenderAll(SectionsOf(svc, order), render) == RenderKeys(svc, order, render)
  {
    if order != [] {
      RenderSectionsOf(svc, order[1..], render);
      var rest := SectionsOf(svc, order[1..]);
      var head := SectionFor(svc, order[0]);
      if head.Some? {
        assert ([head.value] + rest)[1..] == rest;
      }
    }
  }

  /** What each key contributes to the context. */
  lemma ContextPieceForms(svc: Service)
    ensures Piece(svc, Documents, ContextSection) ==
            if svc.documents.Some? then "Documents requis:\n" + Lines("- ", svc.documents.value) + "\n" else ""
    ensures Piece(svc, Steps, ContextSection) ==
            if svc.steps.Some? then "Étapes:\n" + Numbered(svc.steps.value, 1) + "\n" else ""
    ensures Piece(svc, PaymentMethods, ContextSection) ==
            if svc.paymentMethods.Some? then "Méthodes de paiement:\n" + Lines("", svc.paymentMethods.value) + "\n" else ""
    ensures Piece(svc, Cost, ContextSection) == if svc.cost.Some? then "Coût: " + svc.cost.value + "\n" else ""
    ensures Piece(svc, Duration, ContextSection) ==
            if svc.duration.Some? then "Durée: " + svc.duration.value + "\n" else ""
    ensures Piece(svc, Office, ContextSection) == if svc.office.Some? then "Bureau: " + svc.office.value + "\n" else ""
  {
  }

  /** A key in front of `rest` adds its piece in front. */
  lemma KeysCons(svc: Service, f: Field, rest: seq<Field>, render: Section -> string)
    ensures RenderKeys(svc, [f] + rest, render) == Piece(svc, f, render) + RenderKeys(svc, rest, render)
  {
    assert ([f] + rest)[1..] == rest;
  }

  /** Regrouping a head and six pieces. */
  lemma Regroup7(h: string, a: string, b: string, c: string, d: string, e: string, f: string)
    ensures h + (a + (b + (c + (d + (e + (f + "")))))) == h + a + b + c + d + e + f
  {
  }

  /** Six keys in a row render as their six pieces. */
  lemma SixKeys(svc: Service, a: Field, b: Field, c: Field, d: Field, e: Field, f: Field,
                render: Section -> string)
    ensures RenderKeys(svc, [a, b, c, d, e, f], render) ==
            Piece(svc, a, render) + (Piece(svc, b, render) + (Piece(svc, c, render)
            + (Piece(svc, d, render) + (Piece(svc, e, render) + (Piece(svc, f, render) + "")))))
  {
    var o6: seq<Field> := [];
    var o5 := [f] + o6;
    var o4 := [e] + o5;
    var o3 := [d] + o4;
    var o2 := [c] + o3;
    var o1 := [b] + o2;
    KeysCons(svc, f, o6, render);
    KeysCons(svc, e, o5, render);
    KeysCons(svc, d, o4, render);
    KeysCons(svc, c, o3, render);
    KeysCons(svc, b, o2, render);
    KeysCons(svc, a, o1, render);
    assert [a, b, c, d, e, f] == [a] + o1;
  }

  /** The context's sections, key by key. */
  lemma ContextPieces(svc: Service)
    ensures ContextHead(svc) + RenderAll(SectionsOf(svc, ContextOrder), ContextSection) ==
            ContextHead(svc)
            + Piece(svc, Documents, ContextSection) + Piece(svc, Steps, ContextSection)
            + Piece(svc, PaymentMethods, ContextSection) + Piece(svc, Cost, ContextSection)
            + Piece(svc, Duration, ContextSection) + Piece(svc, Office, ContextSection)
  {
    var r := ContextSection;
    ContextOrderRanked();
    RenderSectionsOf(svc, ContextOrder, r);
    SixKeys(svc, Documents, Steps, PaymentMethods, Cost, Duration, Office, r);
    Regroup7(ContextHead(svc), Piece(svc, Documents, r), Piece(svc, Steps, r),
             Piece(svc, PaymentMethods, r), Piece(svc, Cost, r), Piece(svc, Duration, r),
             Piece(svc, Office, r));
  }

  /** A section as it appears in the local reply; only the keys of
      `LocalOrder` ever reach it. */
  function LocalSection(lang: string, s: Section): string {
    match s
    case DocsSection(docs) =>
      (if lang == "ar" then "📋 **الوثائق المطلوبة:**\n" else "📋 **Documents requis:**\n")
      + Lines("• ", docs)
    case CostSection(c) =>
      (if lang == "ar" then "\n💰 **التكلفة:** " else "\n💰 **Coût:** ") + c
    case DurationSection(d) =>
      (if lang == "ar" then "\n⏱️ **المدة:** " else "\n⏱️ **Durée:** ") + d
    case _ => ""
  }

  /** `LocalSection` for a fixed language. */
  function LocalRender(lang: string): Section -> string {
    s => LocalSection(lang, s)
  }

  /** The head of the local reply: the bold name in the reply language and
      the description (empty when the record has none). */
  function LocalHead(svc: Service, lang: string): string {
    "**" + Label(svc, lang) + "**\n\n" + svc.description.GetOr("") + "\n\n"
  }

  /** `_build_local_reply(svc, lang)`: the head, then the documents as one
      bullet each, the cost line and the duration line, each only when its
      key is present. */
  function LocalReply(svc: Service, lang: string): (r: string)
    ensures StartsWith(r, LocalHead(svc, lang))
    ensures lang == "ar" ==>
              r == "**" + svc.nameAr + "**\n\n" + svc.description.GetOr("") + "\n\n"
                   + (if svc.documents.Some? then "📋 **الوثائق المطلوبة:**\n" + Lines("• ", svc.documents.value) else "")
                   + (if svc.cost.Some? then "\n💰 **التكلفة:** " + svc.cost.value else "")
                   + (if svc.duration.Some? then "\n⏱️ **المدة:** " + svc.duration.value else "")
    ensures lang != "ar" ==>
              r == "**" + svc.nameFr + "**\n\n" + svc.description.GetOr("") + "\n\n"
                   + (if svc.documents.Some? then "📋 **Documents requis:**\n" + Lines("• ", svc.documents.value) else "")
                   + (if svc.cost.Some? then "\n💰 **Coût:** " + svc.cost.value else "")
                   + (if svc.duration.Some? then "\n⏱️ **Durée:** " + svc.duration.value else "")
  {
    var head := LocalHead(svc, lang);
    var sections := RenderAll(SectionsOf(svc, LocalOrder), LocalRender(lang));
    LocalPieces(svc, lang);
    LocalPieceForms(svc, lang);
    ConcatStartsWith(head, sections);
    head + sections
  }

  lemma LocalOrderRanked()
    ensures InRankOrder(LocalOrder)
    ensures LocalOrder == [Documents, Cost, Duration]
  {
  }

  /** Three keys in a row render as their three pieces. */
  lemma ThreeKeys(svc: Service, a: Field, b: Field, c: Field, render: Section -> string)
    ensures RenderKeys(svc, [a, b, c], render) ==
            Piece(svc, a, render) + (Piece(svc, b, render) + (Piece(svc, c, render) + ""))
  {
    var o3: seq<Field> := [];
    var o2 := [c] + o3;
    var o1 := [b] + o2;
    KeysCons(svc, c, o3, render);
    KeysCons(svc, b, o2, render);
    KeysCons(svc, a, o1, render);
    assert [a, b, c] == [a] + o1;
  }

  /** Regrouping a head and three pieces. */
  lemma Regroup4(h: string, a: string, b: string, c: string)
    ensures h + (a + (b + (c + ""))) == h + a + b + c
  {
  }

  /** The local reply's sections, key by key. */
  lemma LocalPieces(svc: Service, lang: string)
    ensures LocalHead(svc, lang) + RenderAll(SectionsOf(svc, LocalOrder), LocalRender(lang)) ==
            LocalHead(svc, lang)
            + Piece(svc, Documents, LocalRender(lang)) + Piece(svc, Cost, LocalRender(lang))
            + Piece(svc, Duration, LocalRender(lang))
  {
    var r := LocalRender(lang);
    LocalOrderRanked();
    RenderSectionsOf(svc, LocalOrder, r);
    ThreeKeys(svc, Documents, Cost, Duration, r);
    Regroup4(LocalHead(svc, lang), Piece(svc, Documents, r), Piece(svc, Cost, r), Piece(svc, Duration, r));
  }

  /** What each key contributes to the local reply. */
  lemma LocalPieceForms(svc: Service, lang: string)
    ensures lang == "ar" ==>
              && Piece(svc, Documents, LocalRender(lang)) ==
                 (if svc.documents.Some? then "📋 **الوثائق المطلوبة:**\n" + Lines("• ", svc.documents.value) else "")
              && Piece(svc, Cost, LocalRender(lang)) ==
                 (if svc.cost.Some? then "\n💰 **التكلفة:** " + svc.cost.value else "")
              && Piece(svc, Duration, LocalRender(lang)) ==
                 (if svc.duration.Some? then "\n⏱️ **المدة:** " + svc.duration.value else "")
    ensures lang != "ar" ==>
              && Piece(svc, Documents, LocalRender(lang)) ==
                 (if svc.documents.Some? then "📋 **Documents requis:**\n" + Lines("• ", svc.documents.value) else "")
              && Piece(svc, Cost, LocalRender(lang)) ==
                 (if svc.cost.Some? then "\n💰 **Coût:** " + svc.cost.value else "")
              && Piece(svc, Duration, LocalRender(lang)) ==
                 (if svc.duration.Some? then "\n⏱️ **Durée:** " + svc.duration.value else "")
  {
  }

  /** Keys the local reply does not list cannot change it. */
  lemma LocalReplyIgnoresOtherKeys(svc: Service, lang: string, steps: Option<seq<string>>,
                                   methods: Option<seq<string>>, office: Option<string>,
                                   keywords: Option<seq<string>>)
    ensures LocalReply(svc.(steps := steps, paymentMethods := methods, office := office,
                            keywords := keywords), lang)
            == LocalReply(svc, lang)
  {
    var other := svc.(steps := steps, paymentMethods := methods, office := office, keywords := keywords);
    SectionsOfAgree(other, svc, LocalOrder);
  }

  /** A record with documents, cost and duration yields exactly those three
      sections for the local reply, in that order. */
  lemma LocalSectionsFull(svc: Service)
    requires svc.documents.Some? && svc.cost.Some? && svc.duration.Some?
    ensures SectionsOf(svc, LocalOrder)
            == [DocsSection(svc.documents.value), CostSection(svc.cost.value),
                DurationSection(svc.duration.value)]
  {
    assert LocalOrder[1..] == [Cost, Duration] && LocalOrder[1..][1..] == [Duration];
    assert [Duration][1..] == [];
    assert SectionsOf(svc, [Duration]) == [DurationSection(svc.duration.value)];
  }

  /** Rendering three sections is rendering each in turn. */
  lemma RenderThree(a: Section, b: Section, c: Section, render: Section -> string)
    ensures RenderAll([a, b, c], render) == render(a) + render(b) + render(c)
  {
    assert [a, b, c][1..] == [b, c] && [b, c][1..] == [c] && [c][1..] == [];
    assert RenderAll([c], render) == render(c);
  }

  /** The complete local reply for a record with documents, cost and
      duration: every document as its own bullet, in order, then the cost,
      then the duration. */
  lemma LocalReplyFull(svc: Service, lang: string)
    requires svc.documents.Some? && svc.cost.Some? && svc.duration.Some?
    ensures LocalReply(svc, lang) ==
            LocalHead(svc, lang)
            + LocalSection(lang, DocsSection(svc.documents.value))
            + LocalSection(lang, CostSection(svc.cost.value))
            + LocalSection(lang, DurationSection(svc.duration.value))
  {
    LocalSectionsFull(svc);
    RenderThree(DocsSection(svc.documents.value), CostSection(svc.cost.value),
                DurationSection(svc.duration.value), LocalRender(lang));
  }

  /** The reply when no service is found; it is written in the reply
      language, so it would itself pass the response language check. */
  function NotFound(lang: string): (r: string)
    ensures IsResponseInLang(TextContent(r), lang)
  {
    FixedRepliesInLang();
    if lang == "ar" then ArabicNotFound else FrenchNotFound
  }

  /** The not-found texts, split like the system prompts. */
  const ArabicNotFound: string := "⚠️ لم أجد معلومات عن هذا السؤال." + "\n\nيرجى إعادة صياغة سؤالك."
  const FrenchNotFound: string := "⚠️ Je n'ai pas trouvé d'informations" + " sur cette question." + "\n\nVeuillez reformuler."

  /** The fixed texts carry a character of their language: an Arabic one
      in the Arabic texts, an ASCII letter in the French ones. */
  lemma FixedRepliesInLang()
    ensures Any(ArabicNotFound, IsArabic) && Any(FrenchNotFound, IsAsciiLetter)
    ensures Any(ArabicSystemPrompt, IsArabic) && Any(FrenchSystemPrompt, IsAsciiLetter)
  {
    AnyAt(ArabicNotFound, IsArabic, 3);
    AnyAt(FrenchNotFound, IsAsciiLetter, 3);
    AnyAt(ArabicSystemPrompt, IsArabic, 0);
    AnyAt(FrenchSystemPrompt, IsAsciiLetter, 0);
  }

  /** The system prompts of `_get_system_prompt`, each written as its
      opening words followed by the rest of the text. */
  const ArabicSystemPrompt: string := "أنت مساعد ذكي للخدمات العامة الموريتانية." + "\n\nمهمتك:\n- أجب على أسئلة المواطنين بوضوح ودقة\n- استخدم فقط المعلومات المقدمة\n- أجب باللغة العربية بشكل طبيعي\n- كن مختصراً ومباشراً\n\nأسلوبك: ودي، واضح، منظم\n"
  const FrenchSystemPrompt: string := "Vous êtes un assistant intelligent" + " pour les services publics mauritaniens." + "\n\nVotre mission:\n- Répondez aux questions avec clarté\n- Utilisez uniquement les informations fournies\n- Répondez en français naturellement\n- Soyez concis et direct\n\nVotre style: amical, clair, organisé\n"

  /** The system prompt is written in the reply language: it would itself
      pass the response language check. */
  function SystemPrompt(lang: string): (r: string)
    ensures IsResponseInLang(TextContent(r), lang)
  {
    FixedRepliesInLang();
    if lang == "ar" then ArabicSystemPrompt else FrenchSystemPrompt
  }

  /** The line naming the service the answer came from. */
  function SourceSuffix(svc: Service, lang: string): string {
    "\n\n📚 Source: " + Label(svc, lang)
  }

  /** The separator between the context and the question. */
  const QuestionLabel: string := "\n\nQuestion: "

  /** The user message sent to the language model: the context, the
      separator, then the question. */
  function Prompt(svc: Service, query: string): (r: string)
    ensures StartsWith(r, Context(svc))
    ensures |r| == |Context(svc)| + 12 + |query| && r[|r| - |query|..] == query
    ensures r[|Context(svc)|..|Context(svc)| + 12] == QuestionLabel
  {
    var c := Context(svc);
    var r := c + QuestionLabel + query;
    ConcatStartsWith(c, QuestionLabel + query);
    assert r == c + (QuestionLabel + query);
    assert r[|c|..|c| + 12] == QuestionLabel;
    r
  }

  /** The hosted model was asked and its reply passed `generate`'s checks. */
  predicate ModelAnswered(client: Client, reply: Reply, lang: string) {
    client.available && client.hasClient && reply.Returned? && IsResponseInLang(reply.content, lang)
  }

  /** `answer(query, lang)` once `search` has returned `results`. No result
      gives the fixed not-found message of the language. Otherwise only the
      first result's service is used: the model's stripped reply when the
      client is available and the reply passes `generate`'s checks, else the
      local reply; either way followed by the source line. */
  function AnswerFromResults(results: seq<KbEntry>, query: string, lang: string, client: Client,
                             complete: (string, string) -> Reply): (r: string)
    ensures results == [] ==> r == NotFound(lang)
    ensures results != [] ==>
              var reply := complete(SystemPrompt(lang), Prompt(results[0].svc, query));
              ModelAnswered(client, reply, lang) ==>
                r == Strip(reply.content.text) + SourceSuffix(results[0].svc, lang)
    ensures results != [] ==>
              var reply := complete(SystemPrompt(lang), Prompt(results[0].svc, query));
              !ModelAnswered(client, reply, lang) ==>
                r == LocalReply(results[0].svc, lang) + SourceSuffix(results[0].svc, lang)
  {
    if results == [] then NotFound(lang)
    else
      var svc := results[0].svc;
      var sp := SystemPrompt(lang);
      var um := Prompt(svc, query);
      var fromModel := if client.available then Generate(client, sp, um, lang, complete) else None;
      if fromModel.Some? then
        GenerateResultInLang(client, sp, um, lang, complete);
        if fromModel.value != "" then fromModel.value + SourceSuffix(svc, lang)
        else LocalReply(svc, lang) + SourceSuffix(svc, lang)
      else
        LocalReply(svc, lang) + SourceSuffix(svc, lang)
  }

  /** Results after the first never influence the answer. */
  lemma AnswerUsesFirstOnly(a: seq<KbEntry>, b: seq<KbEntry>, query: string, lang: string,
                            client: Client, complete: (string, string) -> Reply)
    requires a != [] && b != [] && a[0].svc == b[0].svc
    ensures AnswerFromResults(a, query, lang, client, complete)
            == AnswerFromResults(b, query, lang, client, complete)
  {
  }

  /** The full `answer(query, lang)`: `search` with the configured defaults,
      then assembly. An exception in `search` propagates; in particular an
      empty knowledge base makes every question raise. */
  function Answer(kb: seq<KbEntry>, query: string, scores: seq<real>, order: seq<int>,
                  lang: string, client: Client, complete: (string, string) -> Reply): (r: Result<string, RagError>)
    requires |scores| == |kb| && IsArgsort(scores, order)
    ensures kb == [] ==> r == Failure(EmptyMax)
    ensures kb != [] ==> r.Success?
  {
    match Search(kb, query, scores, order, DefaultTopK, DefaultThreshold, DefaultMinSimilarity)
    case Failure(e) => Failure(e)
    case Success(found) => Success(AnswerFromResults(found.entries, query, lang, client, complete))
  }
}
