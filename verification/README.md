# RQuickShare transfer bookkeeping, modelled in Dafny

RQuickShare is a Quick Share–style file transfer app. The backend negotiates
with a peer and reports each transfer as a stream of `ChannelMessage`s. Two
front ends, a Vue app and an egui app, fold those messages into the list of
transfers they show. This project models that bookkeeping and the pure
predicates it depends on in the backend, then proves what they promise:

- **Vue front end** (`src/vue_lib`):
  - `normalizeChannelMessage` and `mergeNormalizedRequest`, where the newer
    non-null value wins;
  - the `stateToDisplay` whitelist;
  - `_displayedItems`, which merges discovered endpoints and known requests
    into one row list;
  - `removeRequest`;
  - the messages `sendInfo` and `sendCmd` build;
  - `opt`.
- **egui front end** (`src/main.rs`):
  - the `Transfer` record;
  - `process_messages`, which folds the message queue into the transfer
    list and then drops disconnected transfers;
  - `clear_transfer`;
  - the `send_action` message;
  - the rule that a send is built only when an endpoint has both an IP and a
    port.
- **Backend handler** (`src/rqs/hdl/mod.rs`):
  - `TransferState` and its default;
  - the initial values `InnerState::new` sets;
  - `TextPayloadInfo::get_i64_value`;
  - the selection of partial files that `Drop` deletes.
- **mDNS advertisement** (`src/rqs/hdl/mdns.rs`):
  - the virtual-interface name test;
  - the per-interface address filter and the loop over interfaces;
  - the `ip_str` handed to the service, with its auto-addressing switch.
- **Messages** (`src-tauri/src/rqs/channel.rs`): `TransferAction`,
  `Message`, `ChannelMessage` and `as_client`.

Modules and files:

| module | file | models |
|---|---|---|
| `Nullable` | `nullable.dfy` | `Option`, with `??` as `GetOr` and `Or` |
| `Seqs` | `seqs.dfy` | first/last index by key, key uniqueness, order-keeping filter (`retain`/`filter`), subsequences |
| `Strings` | `strings.dfy` | decimal digits, join/split on a character, ASCII lower case, prefixes |
| `Ints` | `ints.dfy` | the Rust integer widths used (`u8`, `i32`, `i64`, `u64`) |
| `Info` | `info.dfy` | records declared outside the modelled files, with only the fields read; `"{ip}:{port}"` |
| `Hdl` | `hdl.dfy` | `src/rqs/hdl/mod.rs` |
| `Channel` | `channel.dfy` | `src-tauri/src/rqs/channel.rs` |
| `Mdns` | `mdns.dfy` | `src/rqs/hdl/mdns.rs` |
| `EguiApp` | `egui_app.dfy` | `src/main.rs` |
| `VueTypes` | `vue_types.dfy` | `src/vue_lib/types.ts` |
| `VueUtils` | `vue_utils.dfy` | `src/vue_lib/utils.ts` |
| `VueIndex` | `vue_index.dfy` | `src/vue_lib/index.ts` |

How the model represents the code:

- Mutation became pure functions. Every in-place operation of the source
  returns the new sequence instead:
  - `push` appends;
  - `splice(idx, 1, elem)` is a sequence update;
  - `splice(idx, 1)` is a deletion;
  - `retain` and `filter` are `Seqs.Retain`.
- Loops became left folds. Each loop over a message queue or an endpoint
  list is a fold over a sequence, taking its elements in order.
- `null`/`undefined` and Rust's `None` are all `Nullable.None`, except in
  `VueIndex`. There `JsValue` keeps `undefined`, `null` and a defined value
  apart, because telling them apart is what `opt` does.

Two details of the code the model keeps as written:

- A row's `text_description`, `text_payload` and `text_type` are copied
  unchanged from `meta` (`utils.ts:36-38`); the model does the same.
- The requests `_displayedItems` reads are flat records `{id, state, meta}`.
  They are not the `{id, state, metadata}` records that
  `mergeNormalizedRequest` builds. The model keeps both shapes: `VueUtils.Request`
  and `VueTypes.NormalizedRequest`.

## Model

| member | source | states |
|---|---|---|
| Channel.AsClient | src-tauri/src/rqs/channel.rs:36-43 | the result is present exactly for a `Client` message, and is then that message's payload |
| Channel.ActionsAreThree | src-tauri/src/rqs/channel.rs:8-12 | every action is `ConsentAccept`, `ConsentDecline` or `TransferCancel` |
| Channel.AsClientRebuilds | src-tauri/src/rqs/channel.rs:36-43 | `as_client` loses nothing: the payload rebuilds the message, and `None` means the message is a `Lib` action |
| Hdl.NewInnerState | src/rqs/hdl/mod.rs:90-114 | a new state has the given id and metadata, the default state `Initial`, both sequence numbers 0 and `encryption_done`; it holds no key, no handshake data, no peer, PIN or text payload, and both maps are empty |
| Hdl.PayloadId | src/rqs/hdl/mod.rs:173-180 | the result is the i64 id carried by whichever variant is given |
| Hdl.PayloadIdRebuilds | src/rqs/hdl/mod.rs:173-180 | the id loses nothing else a URL or text payload holds: each rebuilds from it, and a Wi-Fi payload rebuilds from it with its SSID and security |
| Hdl.CleanupSelection | src/rqs/hdl/mod.rs:143-155 | only recorded files are selected; nothing is selected once the transfer is `Finished`; otherwise a file is selected exactly when some but not all of its bytes were written |
| Hdl.CleanupKeepsCompleteAndUntouched | src/rqs/hdl/mod.rs:145-147 | a file with no bytes written, or with all of them, is never deleted |
| Hdl.FreshStateCleansNothing | src/rqs/hdl/mod.rs:100 | a state fresh from `InnerState::new` deletes nothing, whatever transfer state it reaches |
| Hdl.FinishingSparesFiles | src/rqs/hdl/mod.rs:144 | in state `Finished` nothing is deleted, and every other state deletes the same files, whichever state it is |
| Info.FormatAddr | src/main.rs:453 | the address is the IP, then one colon, then only decimal digits; the Vue template literal at `src/vue_lib/utils.ts:78` builds the same string |
| Info.FormatAddrRoundTrip | src/main.rs:453 | reading `"{ip}:{port}"` back at its last colon gives exactly the IP and port it was built from |
| Mdns.IsVirtualInterface | src/rqs/hdl/mdns.rs:11-20 | true exactly when the lower-cased name starts with one of docker, br-, veth, virbr, tailscale, tun, tap |
| Mdns.VirtualIgnoresCase | src/rqs/hdl/mdns.rs:12 | a name and its lower-case form get the same answer, the Kelvin sign lowering to `k` |
| Mdns.VirtualExamples | src/rqs/hdl/mdns.rs:11-20 | `Docker0`, `tailscale0` and `TUN1` are virtual; `eth0`, `wlan0` and `en0` are not |
| Mdns.UnicodeExamples | src/rqs/hdl/mdns.rs:12-13 | a name spelling `docker` with the Kelvin sign for `k` is virtual, as Unicode lower-casing makes it `docker0`; names with a dotted capital I where `virbr` or `tailscale` has `i` are not, because that letter lowers to `i` plus a combining dot |
| Mdns.NotVirtualByFirstChar | src/rqs/hdl/mdns.rs:13-19 | a name whose first character, lower-cased as `to_lowercase` does (the Kelvin sign becoming `k`), is none of d, b, v, t is not virtual |
| Mdns.BlockSizesMatchPrefixes | src/rqs/hdl/mdns.rs:41-53 | the three excluded blocks have the sizes of /16, /12 and /10 prefixes |
| Mdns.OctetTestsAreBlocks | src/rqs/hdl/mdns.rs:41-53 | the source's tests on the first two octets are exactly membership of 169.254.0.0/16, 172.16.0.0/12 and 100.64.0.0/10 |
| Mdns.Accepted | src/rqs/hdl/mdns.rs:27-54 | an interface contributes its address exactly when it is not loopback, not virtual by name, IPv4, and in none of the three blocks |
| Mdns.BlockBoundaries | src/rqs/hdl/mdns.rs:41-53 | 172.15 and 172.32 are kept while 172.16 and 172.31 are dropped; 100.63 and 100.128 are kept while 100.64 and 100.127 are dropped; 169.254 is dropped and 169.253 kept |
| Mdns.KeptAddrs | src/rqs/hdl/mdns.rs:23-58 | every kept address is the address of an accepted interface, every accepted interface's address is kept, and the list is no longer than the input |
| Mdns.GetLocalNetworkIps | src/rqs/hdl/mdns.rs:23-58 | the loop with its `continue`s collects exactly the addresses the per-interface filter accepts, in order |
| Mdns.KeptAddrsIsSubsequence | src/rqs/hdl/mdns.rs:27-55 | the result is the addresses of a subsequence of the interfaces, namely those accepted, taken in interface order |
| Mdns.KeptAddrsAvoidBlocks | src/rqs/hdl/mdns.rs:41-53 | no kept address lies in the link-local, 172.16/12 or 100.64/10 blocks |
| Mdns.BuildAddressing | src/rqs/hdl/mdns.rs:143-165 | auto-addressing is enabled exactly when the address string is empty, which is exactly when no address was kept; the string decodes back to the kept addresses |
| Mdns.Dotted | src/rqs/hdl/mdns.rs:148 | an address's text holds only digits and dots and is at least seven characters long |
| Mdns.IpStr | src/rqs/hdl/mdns.rs:143-151 | the string is empty exactly when no address was kept, and otherwise holds only digits, dots and commas |
| Mdns.IpStrRoundTrip | src/rqs/hdl/mdns.rs:143-151 | splitting `ip_str` at commas and reading each dotted address gives back the kept list in order; it is empty exactly for the empty list |
| Mdns.DottedRoundTrip | src/rqs/hdl/mdns.rs:148 | an address's dotted-decimal text reads back to the same four octets |
| EguiApp.FileNames | src/main.rs:161-168 | no payload gives no lines; files give their paths; text gives the one line `Text: ` followed by its first 50 characters, a URL the one line `URL: ` followed by the URL, and Wi-Fi the one line `WiFi: ` followed by the SSID |
| EguiApp.TextPreview | src/main.rs:164 | the preview is a prefix of the text, at most 50 characters, the whole text when that is short, and exactly 50 characters otherwise |
| EguiApp.NewTransfer | src/main.rs:170-178 | a new transfer takes the id and state of the message, the source name or "Unknown", the payload's lines, and the PIN and byte counters of the metadata |
| EguiApp.ApplyMessage | src/main.rs:147-179 | a `Lib` message changes nothing. For a known id only the first matching transfer changes: its state becomes the reported one (`Initial` if missing), and its counters change only when metadata came with it; name, lines and PIN are kept. An unknown id is appended only when metadata is present |
| EguiApp.ApplyMessageKeepsIds | src/main.rs:151-179 | one message keeps ids unique, loses no id, and adds only the message's own id |
| EguiApp.ApplyMessageLength | src/main.rs:160-179 | the list grows by one exactly for a client message with metadata and an unknown id |
| EguiApp.ApplyAll | src/main.rs:147-181 | draining the queue never removes or reorders a transfer: every existing transfer keeps its position, id, name and lines, and at most one transfer is added per message |
| EguiApp.ApplyAllKeepsIds | src/main.rs:147-181 | over a whole queue ids stay unique, and every id was known before or named by a client message in the queue |
| EguiApp.ProcessMessages | src/main.rs:146-184 | no transfer is `Disconnected` afterwards; the result is a subsequence of the folded list and keeps every transfer of it that is not `Disconnected` |
| EguiApp.ProcessMessagesKeepsIds | src/main.rs:146-184 | `process_messages` keeps transfer ids unique |
| EguiApp.LibMessagesIgnored | src/main.rs:148 | a queue of `Lib` messages leaves the list as it was |
| EguiApp.ClearTransfer | src/main.rs:198-200 | no transfer with the id remains, the rest keep their order, and every transfer with another id is kept |
| EguiApp.ClearTransferKeepsOthers | src/main.rs:198-200 | clearing keeps ids unique |
| EguiApp.SendAction | src/main.rs:186-191 | the message carries the id and the action as a `Lib` message, which `as_client` rejects |
| EguiApp.EndpointSend | src/main.rs:448-455 | a send is built exactly when the backend is connected and the endpoint has both an IP and a port; its name defaults to "Unknown", its address reads back to that IP and port, and it carries the staged files |
| VueTypes.Normalize | src/vue_lib/types.ts:19-34 | the id is kept; a `Client` message keeps its state and metadata unchanged; a `Lib` message gives null for both |
| VueTypes.Merge | src/vue_lib/types.ts:37-46 | the id is the newer one's; state and metadata are the newer value where it has one, else the older |
| VueTypes.MergeNeverLoses | src/vue_lib/types.ts:36-45 | the result has a state (or metadata) exactly when either side has one |
| VueTypes.MergeIdempotent | src/vue_lib/types.ts:41-45 | merging a record with itself gives that record |
| VueTypes.MergeAssociative | src/vue_lib/types.ts:41-45 | merging a chain of updates does not depend on how they are grouped |
| VueTypes.MergeLibIsIdentity | src/vue_lib/types.ts:28-45 | merging the normalised form of a `Lib` message for the same id leaves the record unchanged |
| VueTypes.MergeFullWins | src/vue_lib/types.ts:43-44 | a record with both state and metadata survives a merge with an empty record of the same id, in either order |
| VueTypes.MergeOrderMatters | src/vue_lib/types.ts:43 | merging is not commutative: the newer state wins |
| VueTypes.StateToDisplayContents | src/vue_lib/types.ts:65-75 | the whitelist holds nine distinct states, exactly those from `SentIntroduction` on in declaration order, so `Initial` is excluded |
| VueUtils.Placeholder | src/vue_lib/utils.ts:14-19 | an endpoint's row has its id, `endpoint = true`, its name or "Unknown", its type or "Unknown", and no transfer detail: state, PIN, destination, files, the three text fields and both byte counters are all absent |
| VueUtils.RequestRow | src/vue_lib/utils.ts:26-42 | a request's row has `endpoint = false` and its state; name and device type come from `meta.source`, each defaulting to "Unknown"; every other field is copied from `meta`, and is absent when `meta` is |
| VueUtils.HiddenWithoutState | src/vue_lib/utils.ts:22-24 | a request with no state, or in state `Initial`, is filtered out |
| VueUtils.AddRequest | src/vue_lib/utils.ts:44-48 | a request whose id has a row replaces that row at the same position and leaves length and every other row unchanged; otherwise it is appended |
| VueUtils.PlaceEndpointsSpec | src/vue_lib/utils.ts:10-20 | the first pass gives one row per distinct endpoint id, ids unique, each the placeholder of the first endpoint with that id, in order of first appearance |
| VueUtils.AddKnownEndpoint | src/vue_lib/utils.ts:11-12 | an endpoint whose id already has a row is skipped, and the rows keep their meaning |
| VueUtils.AddNewEndpoint | src/vue_lib/utils.ts:14-19 | an endpoint with a new id adds its placeholder at the end, and the rows keep their meaning |
| VueUtils.PlaceRequestsSpec | src/vue_lib/utils.ts:22-49 | starting from rows with unique ids, the second pass keeps ids unique and keeps earlier rows at their positions; a row whose id a request carries shows the last such request; every other row is unchanged; every request gets a row |
| VueUtils.AddRequestSpec | src/vue_lib/utils.ts:25-48 | one request keeps ids unique, keeps every position's id, and makes the rows with its id, and only those, show it |
| VueUtils.DisplayedItems | src/vue_lib/utils.ts:7-52 | the rows have unique ids, and every transfer row carries the id of a request that passed the state filter |
| VueUtils.DisplayedItemsSpec | src/vue_lib/utils.ts:7-52 | for the whole view: ids are unique; endpoint rows come first, in discovery order; a row is a transfer row exactly when a visible request carries its id, and then it shows the last such request; every endpoint and every visible request has a row |
| VueUtils.DisplayedRowKinds | src/vue_lib/utils.ts:22-48 | a row is a transfer row exactly when a visible request carries its id |
| VueUtils.TransferRowsAreVisible | src/vue_lib/utils.ts:22-24 | every transfer row comes from a request whose state is in the whitelist |
| VueUtils.RemoveRequest | src/vue_lib/utils.ts:61-67 | with no request of that id nothing changes; otherwise only the first request with the id is removed, and the rest keep their order |
| VueUtils.RemoveRequestInverse | src/vue_lib/utils.ts:61-67 | putting the removed request back at its index restores the list, and exactly one element leaves the multiset |
| VueUtils.RemoveRequestUnique | src/vue_lib/utils.ts:61-67 | in a list with unique ids, removal makes the id disappear and keeps the rest unique |
| VueUtils.SendInfoFor | src/vue_lib/utils.ts:69-80 | a message is built exactly when a payload is staged, the endpoint is known, and its first entry has a non-empty IP and a non-zero port; the message then has the endpoint's id, its name or "Unknown", an address that reads back to its IP and port, and the staged payload |
| VueUtils.ZeroPortSendsNothing | src/vue_lib/utils.ts:73 | a port of 0, an empty IP, or a missing IP or port produces no message |
| VueUtils.SendCmd | src/vue_lib/utils.ts:85-97 | the command carries the id and the action, direction `FrontToLib`, and null meta, state and rtype |
| VueUtils.SameIntentInBothFrontEnds | src/vue_lib/utils.ts:85-97 | for a transfer action, the Vue command and the egui `Lib` message of `src/main.rs:186-191` carry the same id and the same action |
| VueIndex.Opt | src/vue_lib/index.ts:12-14 | the result is never `undefined`; a defined value passes through unchanged; `undefined` and `null` become `null` |
| VueIndex.OptKeepsValue | src/vue_lib/index.ts:12-14 | `opt` keeps every defined value, is idempotent, and changes its argument only when it is `undefined` |

## Left out

- Rendering is not modelled. This covers egui drawing, the theme, `configure_style`, `main`, and the per-state button mapping of `src/main.rs:291-356`. It is UI and has no state to verify.
- Concurrency is not modelled: threads, the tokio runtime, the mpsc/broadcast channels and `request_repaint`. The message queue is a sequence given as input, drained in order.
- Progress display is not modelled: the `f32` ratio in `src/main.rs` and `getProgress`. Both are floating point, and `getProgress` also formats a string.
- The front end's remote calls and DOM effects are not modelled: `vm.invoke`, `clearSending` and `blured`. The model stops at the value that would be passed to `invoke`.
- The mDNS service itself is not modelled: `ServiceDaemon`, `MDnsServer::run`, `ServiceInfo::new`, `DEVICE_NAME`. `get_if_addrs` is also out; the interface list is a parameter.
- `Drop`'s effects are not modelled: zeroising keys and calling `remove_file`. Only the choice of files is modelled.
- `Hdl.CleanupSelection`: returns the keys of the selected files in `transferred_files` rather than their paths. The source deletes one file per selected entry, so the two describe the same set of deletions.
- `Mdns.IsVirtualInterface`: `to_lowercase` is modelled by `Strings.LowerChar`. It lowers `A`-`Z`, and it lowers the Kelvin sign to `k`, the letter of `docker`; every other character is kept. Only these characters lower to a single ASCII letter, so `LowerChar` agrees with Unicode lower-casing wherever a prefix can match. The dotted capital I is kept as it is. Unicode lowers it to `i` followed by a combining dot, and no prefix has a letter after `i` that could match that dot. So keeping it unchanged gives the same answer, but `Strings.ToLower` is not the full Unicode mapping for other characters.
- `Mdns.Accepted`: the interface's loopback flag is a field of the record, as `get_if_addrs` reports it. The IPv6 address is carried as opaque segments, because every IPv6 interface is dropped anyway.
- `Mdns.DottedRoundTrip`: `Ipv4Addr::to_string` is modelled as the four decimal octets joined with dots. This is its documented format.
- `TransferMetadata`, `TransferPayload`, `EndpointInfo`, `RemoteDeviceInfo`, `OutboundPayload` and `SendInfo` are declared in files that are not part of this model. They keep only the fields the modelled code reads, and a Wi-Fi payload keeps only its SSID.
- `VueUtils.SendCmd`: generic in the action type, because the TypeScript `ChannelAction` binding is not part of this model. `VueUtils.SameIntentInBothFrontEnds` takes the action to be a `TransferAction`.
- `VueUtils.SendInfoFor`: the endpoint's port is a number and its IP a string, judged by JavaScript truthiness. The TypeScript binding for `EndpointInfo` is not part of this model.
- `VueUtils.RequestRow`: byte counters are unbounded naturals. The source casts them to `number` and stores them without change.
- `EguiApp.ApplyMessage`: the second assignment of the state for `Finished`, `Cancelled` and `Rejected` (`src/main.rs:157-159`) stores the value already stored at line 152, so it is modelled as the one assignment.
- `ToDelete`, the `TextPayloadType` enum and `TransferKind` carry no behaviour. `TransferKind` is declared and passed through; the other two are not modelled.
