/** The transfer list of the egui front end (src/main.rs): folding the
    backend's messages into it, clearing entries, and the two messages the
    user can send. */
module EguiApp {
  import opened Ints
  import opened Nullable
  import opened Seqs
  import opened Hdl
  import opened Info
  import opened Channel
  import Strings

  datatype Transfer = Transfer(
    id: string,
    device_name: string,
    file_names: seq<string>,
    pin_code: Option<string>,
    state: TransferState,
    total_bytes: u64,
    ack_bytes: u64)

  function TransferId(t: Transfer): string { t.id }

  predicate UniqueIds(ts: seq<Transfer>) { UniqueKeys(ts, TransferId) }

  /** At most this many characters of a shared text are shown. */
  const TextPreviewLength: nat := 50

  /** The lines listed under a new transfer, by payload kind. */
  function FileNames(payload: Option<TransferPayload>): (names: seq<string>)
    ensures payload.None? ==> names == []
    ensures payload.Some? && payload.value.Files? ==> names == payload.value.paths
    ensures payload.Some? && !payload.value.Files? ==> |names| == 1
    ensures payload.Some? && payload.value.Text? ==> names == ["Text: " + TextPreview(payload.value.text)]
    ensures payload.Some? && payload.value.Url? ==> names == ["URL: " + payload.value.url]
    ensures payload.Some? && payload.value.Wifi? ==> names == ["WiFi: " + payload.value.ssid]
  {
    match payload
    case None => []
    case Some(Files(paths)) => paths
    case Some(Text(t)) => ["Text: " + TextPreview(t)]
    case Some(Url(u)) => ["URL: " + u]
    case Some(Wifi(ssid)) => ["WiFi: " + ssid]
  }

  /** `t.chars().take(50)`: the text itself when short, else its first 50
      characters. */
  function TextPreview(t: string): (p: string)
    ensures |p| <= TextPreviewLength
    ensures Strings.IsPrefix(p, t)
    ensures |t| <= TextPreviewLength ==> p == t
    ensures |t| > TextPreviewLength ==> |p| == TextPreviewLength
  {
    if |t| <= TextPreviewLength then t else t[..TextPreviewLength]
  }

  /** A transfer first heard of through a message carrying metadata. */
  function NewTransfer(id: string, meta: TransferMetadata, state: TransferState): (t: Transfer)
    ensures t.id == id && t.state == state
    ensures t.device_name == (if meta.source.Some? then meta.source.value.name else "Unknown")
    ensures t.file_names == FileNames(meta.payload)
    ensures t.pin_code == meta.pin_code
    ensures t.total_bytes == meta.total_bytes && t.ack_bytes == meta.ack_bytes
  {
    Transfer(
      id,
      match meta.source case Some(s) => s.name case None => "Unknown",
      FileNames(meta.payload),
      meta.pin_code,
      state,
      meta.total_bytes,
      meta.ack_bytes)
  }

  /** The state a client message reports, `Initial` when it reports none. */
  function ReportedState(c: MessageClient): TransferState
  {
    c.state.GetOr(Initial)
  }

  /** One iteration of the loop in `process_messages`. */
  function ApplyMessage(ts: seq<Transfer>, cm: ChannelMessage): (r: seq<Transfer>)
    // Lib messages leave the list alone
    ensures cm.msg.Lib? ==> r == ts
    // a known id: only that entry changes, and only its state and counters
    ensures cm.msg.Client? && HasKey(ts, TransferId, cm.id) ==>
      var i := IndexOf(ts, TransferId, cm.id).value;
      && |r| == |ts|
      && (forall j | 0 <= j < |ts| && j != i :: r[j] == ts[j])
      && r[i].id == ts[i].id
      && r[i].device_name == ts[i].device_name
      && r[i].file_names == ts[i].file_names
      && r[i].pin_code == ts[i].pin_code
      && r[i].state == ReportedState(cm.msg.client)
      && (cm.msg.client.metadata.Some? ==>
            r[i].total_bytes == cm.msg.client.metadata.value.total_bytes
            && r[i].ack_bytes == cm.msg.client.metadata.value.ack_bytes)
      && (cm.msg.client.metadata.None? ==>
            r[i].total_bytes == ts[i].total_bytes && r[i].ack_bytes == ts[i].ack_bytes)
    // an unknown id: a new entry only when metadata came with it
    ensures cm.msg.Client? && !HasKey(ts, TransferId, cm.id) && cm.msg.client.metadata.None? ==> r == ts
    ensures cm.msg.Client? && !HasKey(ts, TransferId, cm.id) && cm.msg.client.metadata.Some? ==>
      r == ts + [NewTransfer(cm.id, cm.msg.client.metadata.value, ReportedState(cm.msg.client))]
  {
    match cm.msg
    case Lib(_) => ts
    case Client(client) =>
      var state := ReportedState(client);
      match IndexOf(ts, TransferId, cm.id)
      case Some(i) =>
        var t := ts[i];
        var t' := match client.metadata
          case Some(meta) => t.(state := state, total_bytes := meta.total_bytes, ack_bytes := meta.ack_bytes)
          case None => t.(state := state);
        ts[i := t']
      case None =>
        match client.metadata
        case Some(meta) => ts + [NewTransfer(cm.id, meta, state)]
        case None => ts
  }

  /** The messages drained from the queue, in arrival order. */
  function ApplyAll(ts: seq<Transfer>, msgs: seq<ChannelMessage>): (r: seq<Transfer>)
    // entries are updated in place or appended, never removed or reordered
    ensures |ts| <= |r| <= |ts| + |msgs|
    ensures forall j | 0 <= j < |ts| ::
      r[j].id == ts[j].id && r[j].device_name == ts[j].device_name && r[j].file_names == ts[j].file_names
  {
    if |msgs| == 0 then ts
    else ApplyMessage(ApplyAll(ts, msgs[..|msgs| - 1]), msgs[|msgs| - 1])
  }

  predicate NotDisconnected(t: Transfer) { t.state != Disconnected }

  /** `process_messages`: drain the queue, then drop disconnected transfers. */
  function ProcessMessages(ts: seq<Transfer>, msgs: seq<ChannelMessage>): (r: seq<Transfer>)
    ensures forall j | 0 <= j < |r| :: r[j].state != Disconnected
    ensures IsSubsequence(r, ApplyAll(ts, msgs))
    ensures forall j | 0 <= j < |ApplyAll(ts, msgs)| && ApplyAll(ts, msgs)[j].state != Disconnected ::
      ApplyAll(ts, msgs)[j] in r
  {
    Retain(ApplyAll(ts, msgs), NotDisconnected)
  }

  /** `clear_transfer` */
  function ClearTransfer(ts: seq<Transfer>, id: string): (r: seq<Transfer>)
    ensures !HasKey(r, TransferId, id)
    ensures IsSubsequence(r, ts)
    ensures forall j | 0 <= j < |ts| && ts[j].id != id :: ts[j] in r
  {
    Retain(ts, (t: Transfer) => t.id != id)
  }

  /** `send_action`: the command sent for a button press. */
  function SendAction(id: string, action: TransferAction): (cm: ChannelMessage)
    ensures cm.id == id && cm.msg == Lib(action)
    ensures AsClient(cm.msg).None?
  {
    ChannelMessage(id, Lib(action))
  }

  /** The send request built when an endpoint button is clicked, if the
      backend is reachable and the endpoint has both an IP and a port. */
  function EndpointSend(connected: bool, ep: EndpointInfo, outbound_files: seq<string>): (r: Option<SendInfo>)
    ensures r.Some? <==> connected && ep.ip.Some? && ep.port.Some?
    ensures r.Some? ==>
      && r.value.id == ep.id
      && r.value.name == ep.name.GetOr("Unknown")
      && ParseAddr(r.value.addr) == Some((ep.ip.value, ep.port.value))
      && r.value.ob == OutboundFiles(outbound_files)
  {
    match (connected, ep.ip, ep.port)
    case (true, Some(ip), Some(port)) =>
      FormatAddrRoundTrip(ip, port);
      Some(SendInfo(ep.id, ep.name.GetOr("Unknown"), FormatAddr(ip, port), OutboundFiles(outbound_files)))
    case _ => None
  }

  // ---------------------------------------------------------------------
  // Properties of the message fold

  /** Applying a message never loses an id and keeps ids apart. */
  lemma ApplyMessageKeepsIds(ts: seq<Transfer>, cm: ChannelMessage)
    requires UniqueIds(ts)
    ensures UniqueIds(ApplyMessage(ts, cm))
    ensures forall j | 0 <= j < |ts| :: HasKey(ApplyMessage(ts, cm), TransferId, ts[j].id)
    ensures forall j | 0 <= j < |ApplyMessage(ts, cm)| ::
      HasKey(ts, TransferId, ApplyMessage(ts, cm)[j].id) || ApplyMessage(ts, cm)[j].id == cm.id
  {
    var r := ApplyMessage(ts, cm);
    forall j | 0 <= j < |ts| ensures HasKey(r, TransferId, ts[j].id) {
      assert r[j].id == ts[j].id;
    }
    forall j | 0 <= j < |r| ensures HasKey(ts, TransferId, r[j].id) || r[j].id == cm.id {
      if j < |ts| {
        assert r[j].id == ts[j].id;
      }
    }
    if |r| > |ts| {
      forall i, j | 0 <= i < j < |r| ensures r[i].id != r[j].id {
        if j == |ts| {
          assert r[i] == ts[i];
        }
      }
    }
  }

  /** A message that names no known transfer and brings metadata adds exactly
      one transfer; every other message keeps the length. */
  lemma ApplyMessageLength(ts: seq<Transfer>, cm: ChannelMessage)
    ensures |ApplyMessage(ts, cm)| ==
      if cm.msg.Client? && cm.msg.client.metadata.Some? && !HasKey(ts, TransferId, cm.id)
      then |ts| + 1 else |ts|
  {
  }

  /** Ids stay unique over a whole batch, and each id after the batch was
      either known before or named by a client message of the batch. */
  lemma {:induction false} ApplyAllKeepsIds(ts: seq<Transfer>, msgs: seq<ChannelMessage>)
    requires UniqueIds(ts)
    ensures UniqueIds(ApplyAll(ts, msgs))
    ensures forall j | 0 <= j < |ApplyAll(ts, msgs)| ::
      HasKey(ts, TransferId, ApplyAll(ts, msgs)[j].id)
      || exists k | 0 <= k < |msgs| :: msgs[k].id == ApplyAll(ts, msgs)[j].id && msgs[k].msg.Client?
  {
    if |msgs| > 0 {
      var prefix := msgs[..|msgs| - 1];
      var last := msgs[|msgs| - 1];
      ApplyAllKeepsIds(ts, prefix);
      var before := ApplyAll(ts, prefix);
      ApplyMessageKeepsIds(before, last);
      var r := ApplyAll(ts, msgs);
      forall j | 0 <= j < |r|
        ensures HasKey(ts, TransferId, r[j].id)
             || exists k | 0 <= k < |msgs| :: msgs[k].id == r[j].id && msgs[k].msg.Client?
      {
        if r[j].id == last.id {
          if last.msg.Lib? {
            var m :| 0 <= m < |before| && before[m].id == r[j].id;
            if !HasKey(ts, TransferId, r[j].id) {
              var k :| 0 <= k < |prefix| && prefix[k].id == before[m].id && prefix[k].msg.Client?;
              assert msgs[k] == prefix[k];
            }
          } else {
            assert msgs[|msgs| - 1] == last;
          }
        } else {
          var m :| 0 <= m < |before| && before[m].id == r[j].id;
          if !HasKey(ts, TransferId, r[j].id) {
            var k :| 0 <= k < |prefix| && prefix[k].id == before[m].id && prefix[k].msg.Client?;
            assert msgs[k] == prefix[k];
          }
        }
      }
    }
  }

  /** After `process_messages` ids are still unique and nothing is
      disconnected. */
  lemma ProcessMessagesKeepsIds(ts: seq<Transfer>, msgs: seq<ChannelMessage>)
    requires UniqueIds(ts)
    ensures UniqueIds(ProcessMessages(ts, msgs))
  {
    ApplyAllKeepsIds(ts, msgs);
    RetainUnique(ApplyAll(ts, msgs), NotDisconnected, TransferId);
  }

  /** Lib messages, such as those `send_action` emits, never change the list. */
  lemma {:induction false} LibMessagesIgnored(ts: seq<Transfer>, msgs: seq<ChannelMessage>)
    requires forall k | 0 <= k < |msgs| :: msgs[k].msg.Lib?
    ensures ApplyAll(ts, msgs) == ts
  {
    if |msgs| > 0 {
      LibMessagesIgnored(ts, msgs[..|msgs| - 1]);
    }
  }

  /** Clearing keeps the other transfers in their order and leaves a list of
      unique ids unique. */
  lemma ClearTransferKeepsOthers(ts: seq<Transfer>, id: string)
    requires UniqueIds(ts)
    ensures UniqueIds(ClearTransfer(ts, id))
  {
    RetainUnique(ts, (t: Transfer) => t.id != id, TransferId);
  }
}
