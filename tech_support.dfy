/**
  The technical-support page: a ticket flag set on submit, and an FAQ
  accordion whose whole state is the id of the open question, or none.
*/
module TechSupport {
  import opened ClimaTypes

  /** The click on a question: closing it when it is the open one, opening it otherwise. */
  function Toggled(expanded: Option<string>, id: string): (r: Option<string>)
    ensures r.None? <==> expanded == Some(id)
    ensures r == Some(id) <==> expanded != Some(id)
  {
    if expanded == Some(id) then None else Some(id)
  }

  /**
    Clicking the same question twice restores the state exactly when no
    question, or that same one, was open before; with another question open,
    the first click moves the accordion to this one and the second closes it,
    so none is left open.
  */
  lemma ToggleTwice(expanded: Option<string>, id: string)
    ensures Toggled(Toggled(expanded, id), id) == expanded <==> expanded.None? || expanded == Some(id)
    ensures expanded.Some? && expanded != Some(id) ==> Toggled(Toggled(expanded, id), id).None?
  {
  }

  datatype Faq = Faq(id: string, question: string, answer: string)

  const Faqs: seq<Faq> := [
    Faq("faq1", "How to navigate the platform?",
      "To navigate the platform, use the sidebar menu on the left to access different sections. You can click on any section to view its content."),
    Faq("faq2", "How to access reports?",
      "Reports can be accessed from the Download Reports section in your User Dashboard. Click the Download button to retrieve the latest reports.")
  ]

  /** How one question is drawn: its answer (when shown) and whether its chevron is turned. */
  datatype FaqView = FaqView(question: string, answer: Option<string>, chevronRotated: bool)

  function ViewOf(faq: Faq, expanded: Option<string>): (v: FaqView)
    ensures v.question == faq.question
    ensures v.answer.Some? <==> expanded == Some(faq.id)
    ensures v.answer.Some? ==> v.answer.value == faq.answer
    ensures v.chevronRotated <==> v.answer.Some?
  {
    var open := expanded == Some(faq.id);
    FaqView(faq.question, if open then Some(faq.answer) else None, open)
  }

  function RenderFaqs(faqs: seq<Faq>, expanded: Option<string>): (r: seq<FaqView>)
    ensures |r| == |faqs|
    ensures forall i :: 0 <= i < |r| ==> r[i] == ViewOf(faqs[i], expanded)
  {
    if faqs == [] then [] else [ViewOf(faqs[0], expanded)] + RenderFaqs(faqs[1..], expanded)
  }

  /** At most one answer is shown when the questions' ids differ. */
  lemma AtMostOneExpanded(faqs: seq<Faq>, expanded: Option<string>, i: nat, j: nat)
    requires forall a, b :: 0 <= a < b < |faqs| ==> faqs[a].id != faqs[b].id
    requires i < |faqs| && j < |faqs|
    requires RenderFaqs(faqs, expanded)[i].answer.Some? && RenderFaqs(faqs, expanded)[j].answer.Some?
    ensures i == j
  {
  }

  /** The page's questions have distinct ids, so the page never shows two answers. */
  lemma PageShowsAtMostOneAnswer(expanded: Option<string>, i: nat, j: nat)
    requires i < |Faqs| && j < |Faqs|
    requires RenderFaqs(Faqs, expanded)[i].answer.Some? && RenderFaqs(Faqs, expanded)[j].answer.Some?
    ensures i == j
  {
    AtMostOneExpanded(Faqs, expanded, i, j);
  }

  class TechSupportPage {
    var ticketSubmitted: bool
    var expandedFaq: Option<string>

    constructor ()
      ensures !ticketSubmitted && expandedFaq.None?
    {
      ticketSubmitted := false;
      expandedFaq := None;
    }

    /** A click on the question with this id. */
    method ToggleFaq(id: string)
      modifies this
      ensures expandedFaq == Toggled(old(expandedFaq), id)
      ensures ticketSubmitted == old(ticketSubmitted)
    {
      expandedFaq := if expandedFaq == Some(id) then None else Some(id);
    }

    /** Submitting a ticket raises the flag and leaves the accordion alone. */
    method SubmitTicket()
      modifies this
      ensures ticketSubmitted
      ensures expandedFaq == old(expandedFaq)
    {
      ticketSubmitted := true;
    }
  }
}
