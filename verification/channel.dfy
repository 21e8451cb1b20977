/** Messages exchanged between the backend and a front end
    (src-tauri/src/rqs/channel.rs). */
module Channel {
  import opened Nullable
  import opened Hdl
  import opened Info

  datatype TransferAction = ConsentAccept | ConsentDecline | TransferCancel

  datatype TransferKind = Inbound | Outbound

  datatype MessageClient = MessageClient(
    kind: TransferKind,
    state: Option<TransferState>,
    metadata: Option<TransferMetadata>)

  /** `Lib` travels from a front end to the backend; `Client` the other way. */
  datatype Message = Lib(action: TransferAction) | Client(client: MessageClient)

  datatype ChannelMessage = ChannelMessage(id: string, msg: Message)

  /** `Message::as_client` */
  function AsClient(m: Message): (r: Option<MessageClient>)
    ensures r.Some? <==> m.Client?
    ensures r.Some? ==> r.value == m.client
  {
    match m
    case Client(c) => Some(c)
    case Lib(_) => None
  }

  /** Every action is one of the three. */
  lemma ActionsAreThree(a: TransferAction)
    ensures a == ConsentAccept || a == ConsentDecline || a == TransferCancel
  {
  }

  /** `as_client` loses nothing: the client payload it returns rebuilds the
      message. */
  lemma AsClientRebuilds(m: Message)
    ensures AsClient(m).Some? ==> Client(AsClient(m).value) == m
    ensures AsClient(m).None? ==> Lib(m.action) == m
  {
  }
}
