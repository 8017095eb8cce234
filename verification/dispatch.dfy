/** The dispatcher: the ordered sends a run performs for a resolved message and a
    list of attachment paths, with the file system's existence test as a parameter.
    The messaging client is not modelled; each call into it is one action of the trace. */
module Dispatch {
  import opened Results
  import opened Media

  /** One step of a run. */
  datatype Action =
    | SendText(text: string)                                        // a plain text message
    | SendMedia(kind: Kind, path: string, caption: Option<string>)  // one attachment, by kind
    | Skip(path: string)                                            // an attachment that does not exist

  /** Neither a message nor attachments: the run fails without sending anything. */
  datatype DispatchError = NothingToSend

  /** The caption for the message still pending: none once it is empty or used up. */
  function CaptionOf(pending: string): Option<string> {
    if pending == [] then None else Some(pending)
  }

  /** No attachment before position `i` exists. */
  predicate NoneExistBefore(atts: seq<string>, present: string -> bool, i: int)
    requires 0 <= i <= |atts|
  {
    forall j :: 0 <= j < i ==> !present(atts[j])
  }

  /** The loop over attachments. `pending` is the message not yet used as a caption;
      after a real send it is cleared, after a skipped file it is kept. `kindOf` is the
      classifier, `Classify` in every run. */
  function SendAttachments(pending: string, atts: seq<string>, present: string -> bool, kindOf: string -> Kind)
    : (trace: seq<Action>)
    ensures |trace| == |atts|
    ensures forall i :: 0 <= i < |atts| ==> !trace[i].SendText? && trace[i].path == atts[i]
    ensures forall i :: 0 <= i < |atts| ==> (trace[i].Skip? <==> !present(atts[i]))
    ensures forall i :: 0 <= i < |atts| && trace[i].SendMedia? ==> trace[i].kind == kindOf(atts[i])
    decreases |atts|
  {
    if atts == [] then []
    else if present(atts[0]) then
      [SendMedia(kindOf(atts[0]), atts[0], CaptionOf(pending))] + SendAttachments([], atts[1..], present, kindOf)
    else
      [Skip(atts[0])] + SendAttachments(pending, atts[1..], present, kindOf)
  }

  /** The ordered actions of a run, or the error that ends it. */
  function Plan(message: string, atts: seq<string>, present: string -> bool): (r: Result<seq<Action>, DispatchError>)
    ensures r.Err? <==> atts == [] && message == []
    ensures atts == [] && message != [] ==> r == Ok([SendText(message)])
    ensures atts != [] ==> r.Ok? && |r.value| == |atts|
    ensures atts != [] ==> forall i :: 0 <= i < |atts| ==>
      && !r.value[i].SendText?
      && r.value[i].path == atts[i]
      && (r.value[i].Skip? <==> !present(atts[i]))
      && (r.value[i].SendMedia? ==> r.value[i].kind == Classify(atts[i]))
  {
    if atts != [] then Ok(SendAttachments(message, atts, present, Classify))
    else if message != [] then Ok([SendText(message)])
    else Err(NothingToSend)
  }

  /** Caption threading: an attachment that is sent carries the message as its caption
      exactly when no earlier attachment exists; skipped files do not use it up. */
  lemma {:induction false} SendAttachmentsCaption(
    pending: string, atts: seq<string>, present: string -> bool, kindOf: string -> Kind, i: nat)
    requires i < |atts| && present(atts[i])
    ensures SendAttachments(pending, atts, present, kindOf)[i].caption ==
      (if NoneExistBefore(atts, present, i) then CaptionOf(pending) else None)
    decreases i
  {
    if i > 0 {
      var rest := atts[1..];
      assert rest[i - 1] == atts[i];
      assert NoneExistBefore(atts, present, i) <==> !present(atts[0]) && NoneExistBefore(rest, present, i - 1) by {
        assert forall j :: 1 <= j < i ==> rest[j - 1] == atts[j];
      }
      if present(atts[0]) {
        SendAttachmentsCaption([], rest, present, kindOf, i - 1);
      } else {
        SendAttachmentsCaption(pending, rest, present, kindOf, i - 1);
      }
    }
  }

  /** The first attachment that exists gets the message as caption (none if the
      message is empty); every later one that is sent gets none. */
  lemma PlanCaption(message: string, atts: seq<string>, present: string -> bool, i: nat)
    requires i < |atts| && present(atts[i])
    ensures Plan(message, atts, present).Ok?
    ensures Plan(message, atts, present).value[i].caption ==
      (if NoneExistBefore(atts, present, i) then CaptionOf(message) else None)
  {
    SendAttachmentsCaption(message, atts, present, Classify, i);
  }

  /** The message is used at most once: no two sends carry a caption, and the one that
      does carries the message. */
  lemma PlanCaptionUsedOnce(message: string, atts: seq<string>, present: string -> bool, i: nat, j: nat)
    requires i < |atts| && j < |atts| && atts != []
    requires Plan(message, atts, present).value[i].SendMedia? && Plan(message, atts, present).value[i].caption.Some?
    requires Plan(message, atts, present).value[j].SendMedia? && Plan(message, atts, present).value[j].caption.Some?
    ensures i == j
    ensures Plan(message, atts, present).value[i].caption == Some(message)
  {
    PlanCaption(message, atts, present, i);
    PlanCaption(message, atts, present, j);
  }

  /** A non-empty message reaches the recipient as the caption of the first attachment
      that exists, whenever one does. */
  lemma PlanDeliversMessage(message: string, atts: seq<string>, present: string -> bool, i: nat)
    requires message != []
    requires i < |atts| && present(atts[i]) && NoneExistBefore(atts, present, i)
    ensures Plan(message, atts, present).Ok?
    ensures Plan(message, atts, present).value[i] == SendMedia(Classify(atts[i]), atts[i], Some(message))
  {
    PlanCaption(message, atts, present, i);
  }

  /** When every attachment is missing the run still succeeds, with nothing but skips:
      no file is sent, and the message is not sent either. */
  lemma PlanAllMissing(message: string, atts: seq<string>, present: string -> bool)
    requires atts != []
    requires NoneExistBefore(atts, present, |atts|)
    ensures Plan(message, atts, present).Ok?
    ensures forall i :: 0 <= i < |atts| ==> Plan(message, atts, present).value[i] == Skip(atts[i])
  {
  }
}
