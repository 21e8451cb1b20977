/** The per-connection transfer state of the backend handler
    (src/rqs/hdl/mod.rs): the state enumeration, a fresh `InnerState`, the
    text-payload bookkeeping and which partial files a dropped state cleans
    up. Cryptographic material is carried as opaque bytes. */
module Hdl {
  import opened Ints
  import opened Nullable
  import Info

  datatype TransferState =
    | Initial
    | ReceivedConnectionRequest
    | SentUkeyServerInit
    | SentUkeyClientInit
    | SentUkeyClientFinish
    | SentPairedKeyEncryption
    | ReceivedUkeyClientFinish
    | SentConnectionResponse
    | SentPairedKeyResult
    | SentIntroduction
    | ReceivedPairedKeyResult
    | WaitingForUserConsent
    | ReceivingFiles
    | SendingFiles
    | Disconnected
    | Rejected
    | Cancelled
    | Finished

  /** Position of a state in the declaration, which follows the progress of
      a connection from handshake to outcome. */
  function Ordinal(s: TransferState): nat
  {
    match s
    case Initial => 0
    case ReceivedConnectionRequest => 1
    case SentUkeyServerInit => 2
    case SentUkeyClientInit => 3
    case SentUkeyClientFinish => 4
    case SentPairedKeyEncryption => 5
    case ReceivedUkeyClientFinish => 6
    case SentConnectionResponse => 7
    case SentPairedKeyResult => 8
    case SentIntroduction => 9
    case ReceivedPairedKeyResult => 10
    case WaitingForUserConsent => 11
    case ReceivingFiles => 12
    case SendingFiles => 13
    case Disconnected => 14
    case Rejected => 15
    case Cancelled => 16
    case Finished => 17
  }

  /** The `#[default]` variant. */
  const DefaultState: TransferState := Initial

  /** Bookkeeping of one file being written. */
  datatype InternalFileInfo = InternalFileInfo(file_url: string, bytes_transferred: i64, total_size: i64)

  datatype CipherCommitment = CipherCommitment(handshake: seq<u8>)
  datatype SecretKey = SecretKey(bytes: seq<u8>)
  datatype PublicKey = PublicKey(bytes: seq<u8>)

  datatype SecurityType = UnknownSecurityType | Open | WpaPsk | Wep

  /** A text-like payload being received, tracked by its payload id. */
  datatype TextPayloadInfo =
    | Url(url_id: i64)
    | Text(text_id: i64)
    | Wifi(wifi_id: i64, ssid: string, security: SecurityType)

  datatype InnerState = InnerState(
    id: string,
    server_seq: i32,
    client_seq: i32,
    encryption_done: bool,
    state: TransferState,
    remote_device_info: Option<Info.RemoteDeviceInfo>,
    pin_code: Option<string>,
    transfer_metadata: Option<Info.TransferMetadata>,
    transferred_files: map<i64, InternalFileInfo>,
    cipher_commitment: Option<CipherCommitment>,
    private_key: Option<SecretKey>,
    public_key: Option<PublicKey>,
    server_init_data: Option<seq<u8>>,
    client_init_msg_data: Option<seq<u8>>,
    ukey_client_finish_msg_data: Option<seq<u8>>,
    decrypt_key: Option<seq<u8>>,
    recv_hmac_key: Option<seq<u8>>,
    encrypt_key: Option<seq<u8>>,
    send_hmac_key: Option<seq<u8>>,
    text_payload: Option<TextPayloadInfo>,
    payload_buffers: map<i64, seq<u8>>)

  /** No key, handshake data or peer detail has been learnt yet. */
  predicate HoldsNoSecrets(s: InnerState)
  {
    && s.cipher_commitment.None?
    && s.private_key.None?
    && s.public_key.None?
    && s.server_init_data.None?
    && s.client_init_msg_data.None?
    && s.ukey_client_finish_msg_data.None?
    && s.decrypt_key.None?
    && s.recv_hmac_key.None?
    && s.encrypt_key.None?
    && s.send_hmac_key.None?
  }

  /** Nothing has been received yet: no peer, PIN, text payload, file or buffer. */
  predicate HoldsNoProgress(s: InnerState)
  {
    && s.remote_device_info.None?
    && s.pin_code.None?
    && s.text_payload.None?
    && s.transferred_files == map[]
    && s.payload_buffers == map[]
  }

  /** `InnerState::new`: a state at the start of a connection. */
  function NewInnerState(id: string, transfer_metadata: Option<Info.TransferMetadata>): (s: InnerState)
    ensures s.id == id && s.transfer_metadata == transfer_metadata
    ensures s.state == DefaultState
    ensures s.server_seq == 0 && s.client_seq == 0
    ensures s.encryption_done
    ensures HoldsNoSecrets(s) && HoldsNoProgress(s)
  {
    InnerState(
      id, 0, 0, true, Initial, None, None, transfer_metadata, map[],
      None, None, None, None, None, None, None, None, None, None, None, map[])
  }

  /** `get_i64_value`: the payload id every variant carries. */
  function PayloadId(t: TextPayloadInfo): (r: i64)
    ensures t.Url? ==> r == t.url_id
    ensures t.Text? ==> r == t.text_id
    ensures t.Wifi? ==> r == t.wifi_id
  {
    match t
    case Url(v) => v
    case Text(v) => v
    case Wifi(v, _, _) => v
  }

  /** The id is all a URL or text payload holds, and all a Wi-Fi payload
      holds besides its network name and security: each rebuilds from it. */
  lemma PayloadIdRebuilds(t: TextPayloadInfo)
    ensures t.Url? ==> Url(PayloadId(t)) == t
    ensures t.Text? ==> Text(PayloadId(t)) == t
    ensures t.Wifi? ==> Wifi(PayloadId(t), t.ssid, t.security) == t
  {
  }

  /** A file some of whose bytes, but not all, have been written. */
  predicate IsPartial(f: InternalFileInfo)
  {
    0 < f.bytes_transferred < f.total_size
  }

  /** The keys of `transferred_files` whose files `Drop` removes from disk. */
  function CleanupSelection(s: InnerState): (r: set<i64>)
    ensures r <= s.transferred_files.Keys
    ensures s.state == Finished ==> r == {}
    ensures forall k | k in s.transferred_files ::
      k in r <==> s.state != Finished && IsPartial(s.transferred_files[k])
  {
    if s.state == Finished then {}
    else set k | k in s.transferred_files && IsPartial(s.transferred_files[k])
  }

  /** A file written completely, or not at all, is never deleted, whatever the
      state; an unfinished transfer deletes exactly its partial files. */
  lemma CleanupKeepsCompleteAndUntouched(s: InnerState, k: i64)
    requires k in s.transferred_files
    requires s.transferred_files[k].bytes_transferred == 0
          || s.transferred_files[k].bytes_transferred >= s.transferred_files[k].total_size
    ensures k !in CleanupSelection(s)
  {
  }

  /** A state fresh from `InnerState::new` has nothing to clean up, whichever
      transfer state it is later put in, as long as no file was recorded. */
  lemma FreshStateCleansNothing(id: string, tm: Option<Info.TransferMetadata>, st: TransferState)
    ensures CleanupSelection(NewInnerState(id, tm).(state := st)) == {}
  {
  }

  /** Reaching `Finished` spares every file that would otherwise be removed;
      every other state removes the same files, whichever it is. */
  lemma FinishingSparesFiles(s: InnerState, other: TransferState)
    requires s.state != Finished && other != Finished
    ensures CleanupSelection(s.(state := Finished)) == {}
    ensures CleanupSelection(s) == CleanupSelection(s.(state := other))
  {
  }
}
