/** The front end's view of a transfer (src/vue_lib/types.ts): a backend
    message reduced to id, state and metadata, the merge of a newer such
    record into an older one, the display row shape and the states that are
    shown. */
module VueTypes {
  import opened Nullable
  import opened Hdl
  import opened Info
  import opened Channel

  datatype NormalizedRequest = NormalizedRequest(
    id: string,
    state: Option<TransferState>,
    metadata: Option<TransferMetadata>)

  /** `normalizeChannelMessage` */
  function Normalize(cm: ChannelMessage): (r: NormalizedRequest)
    ensures r.id == cm.id
    ensures cm.msg.Client? ==> r.state == cm.msg.client.state && r.metadata == cm.msg.client.metadata
    ensures cm.msg.Lib? ==> r.state.None? && r.metadata.None?
  {
    match AsClient(cm.msg)
    case Some(client) => NormalizedRequest(cm.id, client.state, client.metadata)
    case None => NormalizedRequest(cm.id, None, None)
  }

  /** `mergeNormalizedRequest`: the newer record's id, and for state and
      metadata the newer value where it has one, the older otherwise. */
  function Merge(prev: NormalizedRequest, next: NormalizedRequest): (r: NormalizedRequest)
    ensures r.id == next.id
    ensures next.state.Some? ==> r.state == next.state
    ensures next.state.None? ==> r.state == prev.state
    ensures next.metadata.Some? ==> r.metadata == next.metadata
    ensures next.metadata.None? ==> r.metadata == prev.metadata
  {
    NormalizedRequest(next.id, next.state.Or(prev.state), next.metadata.Or(prev.metadata))
  }

  /** A value known on either side is known after the merge. */
  lemma MergeNeverLoses(prev: NormalizedRequest, next: NormalizedRequest)
    ensures Merge(prev, next).state.Some? <==> prev.state.Some? || next.state.Some?
    ensures Merge(prev, next).metadata.Some? <==> prev.metadata.Some? || next.metadata.Some?
  {
  }

  lemma MergeIdempotent(x: NormalizedRequest)
    ensures Merge(x, x) == x
  {
  }

  /** Merging a chain of updates does not depend on grouping: folding them in
      one at a time equals folding in their own merge. */
  lemma MergeAssociative(a: NormalizedRequest, b: NormalizedRequest, c: NormalizedRequest)
    ensures Merge(Merge(a, b), c) == Merge(a, Merge(b, c))
  {
  }

  /** A control message, such as the backend echoing an action, normalises to
      a record that leaves what is known about the transfer untouched. */
  lemma MergeLibIsIdentity(prev: NormalizedRequest, cm: ChannelMessage)
    requires cm.msg.Lib? && cm.id == prev.id
    ensures Merge(prev, Normalize(cm)) == prev
  {
  }

  /** A fully known record wins over an empty one in either order. */
  lemma MergeFullWins(full: NormalizedRequest, empty: NormalizedRequest)
    requires full.state.Some? && full.metadata.Some?
    requires empty.state.None? && empty.metadata.None? && empty.id == full.id
    ensures Merge(full, empty) == full
    ensures Merge(empty, full) == full
  {
  }

  /** Merging is not commutative: the newer state wins. */
  lemma MergeOrderMatters(id: string)
    ensures Merge(NormalizedRequest(id, Some(ReceivingFiles), None), NormalizedRequest(id, Some(Finished), None)).state == Some(Finished)
    ensures Merge(NormalizedRequest(id, Some(Finished), None), NormalizedRequest(id, Some(ReceivingFiles), None)).state == Some(ReceivingFiles)
  {
  }

  /** One row of the list the front end shows. */
  datatype DisplayedItem = DisplayedItem(
    id: string,
    name: string,
    deviceType: DeviceType,
    endpoint: bool,
    state: Option<TransferState>,
    pin_code: Option<string>,
    files: Option<seq<string>>,
    text_description: Option<string>,
    text_payload: Option<string>,
    text_type: Option<string>,
    destination: Option<string>,
    total_bytes: Option<nat>,
    ack_bytes: Option<nat>)

  /** `stateToDisplay`, in its declared order. */
  const StateToDisplay: seq<TransferState> := [
    ReceivedPairedKeyResult,
    WaitingForUserConsent,
    ReceivingFiles,
    Disconnected,
    Finished,
    SentIntroduction,
    SendingFiles,
    Cancelled,
    Rejected
  ]

  /** `stateToDisplay.includes(s)` */
  predicate IsDisplayed(s: TransferState)
  {
    s in StateToDisplay
  }

  /** The list holds nine distinct states: exactly those from
      `SentIntroduction` on in the declaration order, so every handshake
      state, `Initial` included, is hidden. */
  lemma StateToDisplayContents()
    ensures |StateToDisplay| == 9
    ensures forall i, j | 0 <= i < j < |StateToDisplay| :: StateToDisplay[i] != StateToDisplay[j]
    ensures forall s: TransferState :: IsDisplayed(s) <==> Ordinal(s) >= Ordinal(SentIntroduction)
    ensures !IsDisplayed(Initial)
  {
    forall s: TransferState ensures IsDisplayed(s) <==> Ordinal(s) >= Ordinal(SentIntroduction) {
      match s
      case ReceivedPairedKeyResult => assert StateToDisplay[0] == s;
      case WaitingForUserConsent => assert StateToDisplay[1] == s;
      case ReceivingFiles => assert StateToDisplay[2] == s;
      case Disconnected => assert StateToDisplay[3] == s;
      case Finished => assert StateToDisplay[4] == s;
      case SentIntroduction => assert StateToDisplay[5] == s;
      case SendingFiles => assert StateToDisplay[6] == s;
      case Cancelled => assert StateToDisplay[7] == s;
      case Rejected => assert StateToDisplay[8] == s;
      case _ =>
    }
  }
}
