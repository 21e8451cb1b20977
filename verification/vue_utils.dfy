/** The front end's view reconciliation and command building
    (src/vue_lib/utils.ts). The known requests are read as flat records
    `{id, state, meta}`, the shape `_displayedItems` and `removeRequest`
    access. */
module VueUtils {
  import opened Nullable
  import opened Seqs
  import opened Hdl
  import opened Info
  import opened VueTypes
  import Channel
  import EguiApp

  /** Who a request comes from, as the front end reads it. */
  datatype MetaSource = MetaSource(name: Option<string>, device_type: Option<DeviceType>)

  datatype RequestMeta = RequestMeta(
    source: Option<MetaSource>,
    pin_code: Option<string>,
    destination: Option<string>,
    files: Option<seq<string>>,
    text_description: Option<string>,
    text_payload: Option<string>,
    text_type: Option<string>,
    ack_bytes: Option<nat>,
    total_bytes: Option<nat>)

  /** One entry of the front end's request list. */
  datatype Request = Request(id: string, state: Option<TransferState>, meta: Option<RequestMeta>)

  function RequestId(r: Request): string { r.id }
  function RowId(r: DisplayedItem): string { r.id }

  // ---------------------------------------------------------------------
  // Rows

  /** The row of a discovered endpoint with no transfer shown yet. */
  function Placeholder(ep: EndpointInfo): (row: DisplayedItem)
    ensures row.id == ep.id && row.endpoint
    ensures row.name == (if ep.name.Some? then ep.name.value else "Unknown")
    ensures row.deviceType == (if ep.rtype.Some? then ep.rtype.value else Unknown)
    ensures row.state.None? && row.pin_code.None? && row.files.None?
    ensures row.destination.None? && row.total_bytes.None? && row.ack_bytes.None?
    ensures row.text_description.None? && row.text_payload.None? && row.text_type.None?
  {
    DisplayedItem(ep.id, ep.name.GetOr("Unknown"), ep.rtype.GetOr(Unknown), true,
      None, None, None, None, None, None, None, None, None)
  }

  /** `el.meta?.source?.name ?? "Unknown"` */
  function SourceName(meta: Option<RequestMeta>): string
  {
    if meta.Some? && meta.value.source.Some? && meta.value.source.value.name.Some?
    then meta.value.source.value.name.value
    else "Unknown"
  }

  /** `el.meta?.source?.device_type ?? "Unknown"` */
  function SourceDeviceType(meta: Option<RequestMeta>): DeviceType
  {
    if meta.Some? && meta.value.source.Some? && meta.value.source.value.device_type.Some?
    then meta.value.source.value.device_type.value
    else Unknown
  }

  /** The row of a request: who it is from, and every detail copied from its
      metadata. */
  function RequestRow(req: Request): (row: DisplayedItem)
    ensures row.id == req.id && !row.endpoint
    ensures row.state == req.state
    ensures req.meta.None? ==>
      && row.name == "Unknown" && row.deviceType == Unknown
      && row.pin_code.None? && row.destination.None? && row.files.None?
      && row.text_description.None? && row.text_payload.None? && row.text_type.None?
      && row.ack_bytes.None? && row.total_bytes.None?
    ensures req.meta.Some? ==>
      var m := req.meta.value;
      && row.pin_code == m.pin_code && row.destination == m.destination && row.files == m.files
      && row.text_description == m.text_description && row.text_payload == m.text_payload
      && row.text_type == m.text_type
      && row.ack_bytes == m.ack_bytes && row.total_bytes == m.total_bytes
      && (m.source.Some? && m.source.value.name.Some? ==> row.name == m.source.value.name.value)
      && (m.source.None? || m.source.value.name.None? ==> row.name == "Unknown")
      && (m.source.Some? && m.source.value.device_type.Some? ==> row.deviceType == m.source.value.device_type.value)
      && (m.source.None? || m.source.value.device_type.None? ==> row.deviceType == Unknown)
  {
    match req.meta
    case None =>
      DisplayedItem(req.id, "Unknown", Unknown, false, req.state,
        None, None, None, None, None, None, None, None)
    case Some(m) =>
      DisplayedItem(req.id, SourceName(req.meta), SourceDeviceType(req.meta), false, req.state,
        m.pin_code, m.files, m.text_description, m.text_payload, m.text_type, m.destination,
        m.total_bytes, m.ack_bytes)
  }

  /** `stateToDisplay.includes(req.state ?? "Initial")` */
  predicate IsVisible(req: Request)
  {
    IsDisplayed(req.state.GetOr(Initial))
  }

  /** A request whose state is unknown or `Initial` is never shown. */
  lemma HiddenWithoutState(req: Request)
    requires req.state.None? || req.state == Some(Initial)
    ensures !IsVisible(req)
  {
    StateToDisplayContents();
  }

  // ---------------------------------------------------------------------
  // The two passes of `_displayedItems`

  /** First pass, one endpoint: skipped when its id already has a row. */
  function AddEndpoint(rows: seq<DisplayedItem>, ep: EndpointInfo): seq<DisplayedItem>
  {
    if IndexOf(rows, RowId, ep.id).Some? then rows else rows + [Placeholder(ep)]
  }

  function PlaceEndpoints(eps: seq<EndpointInfo>): seq<DisplayedItem>
  {
    if |eps| == 0 then []
    else AddEndpoint(PlaceEndpoints(eps[..|eps| - 1]), eps[|eps| - 1])
  }

  /** Second pass, one request: it replaces the row with its id where there
      is one, keeping the position, and is appended otherwise. */
  function AddRequest(rows: seq<DisplayedItem>, req: Request): (r: seq<DisplayedItem>)
    ensures HasKey(rows, RowId, req.id) ==>
      var i := IndexOf(rows, RowId, req.id).value;
      && |r| == |rows|
      && r[i] == RequestRow(req)
      && forall j | 0 <= j < |rows| && j != i :: r[j] == rows[j]
    ensures !HasKey(rows, RowId, req.id) ==>
      && |r| == |rows| + 1
      && r[|rows|] == RequestRow(req)
      && forall j | 0 <= j < |rows| :: r[j] == rows[j]
  {
    match IndexOf(rows, RowId, req.id)
    case Some(i) => rows[i := RequestRow(req)]
    case None => rows + [RequestRow(req)]
  }

  function PlaceRequests(rows: seq<DisplayedItem>, reqs: seq<Request>): seq<DisplayedItem>
  {
    if |reqs| == 0 then rows
    else AddRequest(PlaceRequests(rows, reqs[..|reqs| - 1]), reqs[|reqs| - 1])
  }

  /** The requests that pass the state filter, in order. */
  function VisibleRequests(reqs: seq<Request>): seq<Request>
  {
    Retain(reqs, IsVisible)
  }

  /** `_displayedItems(vm)` for `vm.endpointsInfo == eps` and
      `vm.requests == reqs`. */
  function DisplayedItems(eps: seq<EndpointInfo>, reqs: seq<Request>): (rows: seq<DisplayedItem>)
    ensures UniqueKeys(rows, RowId)
    ensures forall j | 0 <= j < |rows| && !rows[j].endpoint :: HasKey(VisibleRequests(reqs), RequestId, rows[j].id)
  {
    PlaceEndpointsSpec(eps);
    PlaceRequestsSpec(PlaceEndpoints(eps), VisibleRequests(reqs));
    PlaceRequests(PlaceEndpoints(eps), VisibleRequests(reqs))
  }

  // ---------------------------------------------------------------------
  // What the first pass builds

  /** The rows of the first pass: one placeholder per distinct endpoint id,
      built from the first endpoint with that id, in the order the ids first
      appear. */
  ghost predicate EndpointRows(eps: seq<EndpointInfo>, rows: seq<DisplayedItem>)
  {
    && UniqueKeys(rows, RowId)
    && (forall j | 0 <= j < |rows| ::
          IndexOf(eps, EndpointId, rows[j].id).Some?
          && rows[j] == Placeholder(eps[IndexOf(eps, EndpointId, rows[j].id).value]))
    && (forall i | 0 <= i < |eps| :: HasKey(rows, RowId, eps[i].id))
    && (forall j1, j2 | 0 <= j1 < j2 < |rows| ::
          IndexOf(eps, EndpointId, rows[j1].id).value < IndexOf(eps, EndpointId, rows[j2].id).value)
  }

  lemma {:induction false} PlaceEndpointsSpec(eps: seq<EndpointInfo>)
    ensures EndpointRows(eps, PlaceEndpoints(eps))
  {
    if |eps| > 0 {
      var prefix := eps[..|eps| - 1];
      var ep := eps[|eps| - 1];
      assert prefix + [ep] == eps;
      PlaceEndpointsSpec(prefix);
      if HasKey(PlaceEndpoints(prefix), RowId, ep.id) {
        AddKnownEndpoint(prefix, ep, PlaceEndpoints(prefix));
      } else {
        AddNewEndpoint(prefix, ep, PlaceEndpoints(prefix));
      }
    }
  }

  /** Extending the endpoint list keeps the first index of every id seen. */
  lemma FirstIndexStable(prefix: seq<EndpointInfo>, ep: EndpointInfo)
    ensures forall id | HasKey(prefix, EndpointId, id) ::
      IndexOf(prefix + [ep], EndpointId, id) == IndexOf(prefix, EndpointId, id)
  {
    forall id | HasKey(prefix, EndpointId, id)
      ensures IndexOf(prefix + [ep], EndpointId, id) == IndexOf(prefix, EndpointId, id)
    {
      IndexOfAppend(prefix, ep, EndpointId, id);
    }
  }

  /** An endpoint whose id already has a row changes nothing. */
  lemma AddKnownEndpoint(prefix: seq<EndpointInfo>, ep: EndpointInfo, rows0: seq<DisplayedItem>)
    requires EndpointRows(prefix, rows0)
    requires HasKey(rows0, RowId, ep.id)
    ensures EndpointRows(prefix + [ep], AddEndpoint(rows0, ep))
  {
    var eps := prefix + [ep];
    FirstIndexStable(prefix, ep);
    assert AddEndpoint(rows0, ep) == rows0;
    forall i | 0 <= i < |eps| ensures HasKey(rows0, RowId, eps[i].id) {
      if i < |prefix| {
        assert prefix[i] == eps[i];
      }
    }
  }

  /** An endpoint with a new id gets a placeholder at the end, and that id
      appears in the endpoint list first at this endpoint. */
  lemma AddNewEndpoint(prefix: seq<EndpointInfo>, ep: EndpointInfo, rows0: seq<DisplayedItem>)
    requires EndpointRows(prefix, rows0)
    requires !HasKey(rows0, RowId, ep.id)
    ensures EndpointRows(prefix + [ep], AddEndpoint(rows0, ep))
  {
    var eps := prefix + [ep];
    var rows := AddEndpoint(rows0, ep);
    assert rows == rows0 + [Placeholder(ep)];
    assert !HasKey(prefix, EndpointId, ep.id);
    IndexOfAppend(prefix, ep, EndpointId, ep.id);
    FirstIndexStable(prefix, ep);
    NewRowUnique(rows0, Placeholder(ep));
    NewRowFromFirst(prefix, ep, eps, rows0, rows);
    NewRowCovers(prefix, ep, eps, rows0, rows);
    NewRowOrdered(prefix, ep, eps, rows0, rows);
  }

  /** A row with an id not yet shown keeps the ids distinct. */
  lemma NewRowUnique(rows0: seq<DisplayedItem>, row: DisplayedItem)
    requires UniqueKeys(rows0, RowId)
    requires !HasKey(rows0, RowId, row.id)
    ensures UniqueKeys(rows0 + [row], RowId)
  {
    var rows := rows0 + [row];
    forall i, j | 0 <= i < j < |rows| ensures rows[i].id != rows[j].id {
      assert rows[i] == rows0[i];
      if j < |rows0| {
        assert rows[j] == rows0[j];
      }
    }
  }

  /** The facts the three steps below share: `eps` is `prefix` extended by
      `ep`, whose id is new, and `rows` is `rows0` extended by its
      placeholder. */
  ghost predicate Extended(prefix: seq<EndpointInfo>, ep: EndpointInfo, eps: seq<EndpointInfo>,
                           rows0: seq<DisplayedItem>, rows: seq<DisplayedItem>)
  {
    && |eps| == |prefix| + 1 && eps[|prefix|] == ep
    && (forall i | 0 <= i < |prefix| :: eps[i] == prefix[i])
    && |rows| == |rows0| + 1 && rows[|rows0|] == Placeholder(ep)
    && (forall j | 0 <= j < |rows0| :: rows[j] == rows0[j])
    && IndexOf(eps, EndpointId, ep.id) == Some(|prefix|)
    && (forall id | HasKey(prefix, EndpointId, id) :: IndexOf(eps, EndpointId, id) == IndexOf(prefix, EndpointId, id))
  }

  /** Each row is still the placeholder of the first endpoint with its id. */
  lemma NewRowFromFirst(prefix: seq<EndpointInfo>, ep: EndpointInfo, eps: seq<EndpointInfo>,
                        rows0: seq<DisplayedItem>, rows: seq<DisplayedItem>)
    requires Extended(prefix, ep, eps, rows0, rows)
    requires forall j | 0 <= j < |rows0| ::
      IndexOf(prefix, EndpointId, rows0[j].id).Some?
      && rows0[j] == Placeholder(prefix[IndexOf(prefix, EndpointId, rows0[j].id).value])
    ensures forall j | 0 <= j < |rows| ::
      IndexOf(eps, EndpointId, rows[j].id).Some?
      && rows[j] == Placeholder(eps[IndexOf(eps, EndpointId, rows[j].id).value])
  {
    forall j | 0 <= j < |rows|
      ensures IndexOf(eps, EndpointId, rows[j].id).Some?
      ensures rows[j] == Placeholder(eps[IndexOf(eps, EndpointId, rows[j].id).value])
    {
      if j < |rows0| {
        var k := IndexOf(prefix, EndpointId, rows0[j].id).value;
        assert HasKey(prefix, EndpointId, rows0[j].id);
        assert eps[k] == prefix[k];
      }
    }
  }

  /** Every endpoint id, old and new, has a row. */
  lemma NewRowCovers(prefix: seq<EndpointInfo>, ep: EndpointInfo, eps: seq<EndpointInfo>,
                     rows0: seq<DisplayedItem>, rows: seq<DisplayedItem>)
    requires Extended(prefix, ep, eps, rows0, rows)
    requires forall i | 0 <= i < |prefix| :: HasKey(rows0, RowId, prefix[i].id)
    ensures forall i | 0 <= i < |eps| :: HasKey(rows, RowId, eps[i].id)
  {
    forall i | 0 <= i < |eps| ensures HasKey(rows, RowId, eps[i].id) {
      if i < |prefix| {
        var j :| 0 <= j < |rows0| && rows0[j].id == prefix[i].id;
        assert rows[j] == rows0[j];
      } else {
        assert rows[|rows0|].id == eps[i].id;
      }
    }
  }

  /** Rows stay in the order in which their ids first appear. */
  lemma NewRowOrdered(prefix: seq<EndpointInfo>, ep: EndpointInfo, eps: seq<EndpointInfo>,
                      rows0: seq<DisplayedItem>, rows: seq<DisplayedItem>)
    requires Extended(prefix, ep, eps, rows0, rows)
    requires forall j | 0 <= j < |rows0| :: IndexOf(prefix, EndpointId, rows0[j].id).Some?
    requires forall j1, j2 | 0 <= j1 < j2 < |rows0| ::
      IndexOf(prefix, EndpointId, rows0[j1].id).value < IndexOf(prefix, EndpointId, rows0[j2].id).value
    ensures forall j | 0 <= j < |rows| :: IndexOf(eps, EndpointId, rows[j].id).Some?
    ensures forall j1, j2 | 0 <= j1 < j2 < |rows| ::
      IndexOf(eps, EndpointId, rows[j1].id).value < IndexOf(eps, EndpointId, rows[j2].id).value
  {
    forall j | 0 <= j < |rows0| ensures IndexOf(eps, EndpointId, rows[j].id) == IndexOf(prefix, EndpointId, rows0[j].id) {
      assert HasKey(prefix, EndpointId, rows0[j].id);
    }
  }

  // ---------------------------------------------------------------------
  // What the second pass does to any list of rows with distinct ids

  ghost predicate RequestsPlaced(rows: seq<DisplayedItem>, reqs: seq<Request>, out: seq<DisplayedItem>)
  {
    && UniqueKeys(out, RowId)
    // earlier rows keep their positions and ids
    && |rows| <= |out|
    && (forall j | 0 <= j < |rows| :: out[j].id == rows[j].id)
    // a row whose id some request carries shows the last such request
    && (forall j | 0 <= j < |out| && HasKey(reqs, RequestId, out[j].id) ::
          out[j] == RequestRow(reqs[LastIndexOf(reqs, RequestId, out[j].id).value]))
    // every other row is an earlier row, unchanged
    && (forall j | 0 <= j < |out| && !HasKey(reqs, RequestId, out[j].id) ::
          j < |rows| && out[j] == rows[j])
    // every request has a row
    && (forall i | 0 <= i < |reqs| :: HasKey(out, RowId, reqs[i].id))
  }

  lemma {:induction false} PlaceRequestsSpec(rows: seq<DisplayedItem>, reqs: seq<Request>)
    requires UniqueKeys(rows, RowId)
    ensures RequestsPlaced(rows, reqs, PlaceRequests(rows, reqs))
  {
    if |reqs| > 0 {
      var prefix := reqs[..|reqs| - 1];
      var req := reqs[|reqs| - 1];
      assert prefix + [req] == reqs;
      PlaceRequestsSpec(rows, prefix);
      var out0 := PlaceRequests(rows, prefix);
      var out := PlaceRequests(rows, reqs);
      assert out == AddRequest(out0, req);
      AddRequestSpec(out0, req);
      forall id ensures HasKey(reqs, RequestId, id) <==> HasKey(prefix, RequestId, id) || id == req.id {
        HasKeyAppend(prefix, req, RequestId, id);
      }
      forall id | id != req.id
        ensures LastIndexOf(reqs, RequestId, id) == LastIndexOf(prefix, RequestId, id)
      {
        LastIndexOfAppend(prefix, req, RequestId, id);
      }
      LastIndexOfAppend(prefix, req, RequestId, req.id);
      forall j | 0 <= j < |out| && HasKey(reqs, RequestId, out[j].id)
        ensures out[j] == RequestRow(reqs[LastIndexOf(reqs, RequestId, out[j].id).value])
      {
        if out[j].id != req.id {
          assert reqs[LastIndexOf(prefix, RequestId, out[j].id).value]
              == prefix[LastIndexOf(prefix, RequestId, out[j].id).value];
        }
      }
      forall i | 0 <= i < |reqs| ensures HasKey(out, RowId, reqs[i].id) {
        if i < |prefix| {
          assert reqs[i] == prefix[i];
          var j :| 0 <= j < |out0| && out0[j].id == prefix[i].id;
          assert out[j].id == out0[j].id;
        } else {
          assert reqs[i] == req;
        }
      }
    }
  }

  /** One request step keeps ids unique and positions stable: the row with the
      request's id, and only that row, now shows the request. */
  lemma AddRequestSpec(rows: seq<DisplayedItem>, req: Request)
    requires UniqueKeys(rows, RowId)
    ensures var out := AddRequest(rows, req);
      && UniqueKeys(out, RowId)
      && |rows| <= |out|
      && (forall j | 0 <= j < |rows| :: out[j].id == rows[j].id)
      && (forall j | 0 <= j < |out| && out[j].id == req.id :: out[j] == RequestRow(req))
      && (forall j | 0 <= j < |out| && out[j].id != req.id :: j < |rows| && out[j] == rows[j])
      && HasKey(out, RowId, req.id)
  {
    var out := AddRequest(rows, req);
    if HasKey(rows, RowId, req.id) {
      var i := IndexOf(rows, RowId, req.id).value;
      assert out[i].id == req.id;
    } else {
      assert out[|rows|].id == req.id;
    }
  }

  // ---------------------------------------------------------------------
  // The view as a whole

  /** What `_displayedItems` promises: one row per id; discovered endpoints
      first, at the positions of their first discovery; a row shows a
      transfer exactly when a visible request carries its id, and then the
      last visible one; every other row is the endpoint placeholder. */
  lemma DisplayedItemsSpec(eps: seq<EndpointInfo>, reqs: seq<Request>)
    ensures var rows := DisplayedItems(eps, reqs);
      var placeholders := PlaceEndpoints(eps);
      var visible := VisibleRequests(reqs);
      && UniqueKeys(rows, RowId)
      && |placeholders| <= |rows|
      && (forall j | 0 <= j < |placeholders| :: rows[j].id == placeholders[j].id)
      && (forall j | 0 <= j < |rows| :: !rows[j].endpoint <==> HasKey(visible, RequestId, rows[j].id))
      && (forall j | 0 <= j < |rows| && !rows[j].endpoint ::
            rows[j] == RequestRow(visible[LastIndexOf(visible, RequestId, rows[j].id).value]))
      && (forall j | 0 <= j < |rows| && rows[j].endpoint :: j < |placeholders| && rows[j] == placeholders[j])
      && (forall i | 0 <= i < |eps| :: HasKey(rows, RowId, eps[i].id))
      && (forall i | 0 <= i < |reqs| && IsVisible(reqs[i]) :: HasKey(rows, RowId, reqs[i].id))
  {
    PlaceEndpointsSpec(eps);
    PlaceRequestsSpec(PlaceEndpoints(eps), VisibleRequests(reqs));
    DisplayedRowKinds(eps, reqs);
    KeysKeptByPrefix(eps, PlaceEndpoints(eps), DisplayedItems(eps, reqs));
    VisibleKeysCovered(reqs, DisplayedItems(eps, reqs));
  }

  /** A row is a transfer row exactly when a visible request carries its id. */
  lemma DisplayedRowKinds(eps: seq<EndpointInfo>, reqs: seq<Request>)
    requires EndpointRows(eps, PlaceEndpoints(eps))
    requires RequestsPlaced(PlaceEndpoints(eps), VisibleRequests(reqs), DisplayedItems(eps, reqs))
    ensures var rows := DisplayedItems(eps, reqs);
      forall j | 0 <= j < |rows| :: !rows[j].endpoint <==> HasKey(VisibleRequests(reqs), RequestId, rows[j].id)
  {
    var rows := DisplayedItems(eps, reqs);
    var placeholders := PlaceEndpoints(eps);
    var visible := VisibleRequests(reqs);
    forall j | 0 <= j < |rows| ensures !rows[j].endpoint <==> HasKey(visible, RequestId, rows[j].id) {
      if !HasKey(visible, RequestId, rows[j].id) {
        assert rows[j] == placeholders[j];
      }
    }
  }

  /** Rows that keep the ids of an earlier list at its positions still carry
      every id the earlier list carried. */
  lemma KeysKeptByPrefix(eps: seq<EndpointInfo>, placeholders: seq<DisplayedItem>, rows: seq<DisplayedItem>)
    requires forall i | 0 <= i < |eps| :: HasKey(placeholders, RowId, eps[i].id)
    requires |placeholders| <= |rows|
    requires forall j | 0 <= j < |placeholders| :: rows[j].id == placeholders[j].id
    ensures forall i | 0 <= i < |eps| :: HasKey(rows, RowId, eps[i].id)
  {
    forall i | 0 <= i < |eps| ensures HasKey(rows, RowId, eps[i].id) {
      var j :| 0 <= j < |placeholders| && placeholders[j].id == eps[i].id;
      assert rows[j].id == placeholders[j].id;
    }
  }

  /** Every request that passes the state filter has a row once every
      filtered request has one. */
  lemma VisibleKeysCovered(reqs: seq<Request>, rows: seq<DisplayedItem>)
    requires forall k | 0 <= k < |VisibleRequests(reqs)| :: HasKey(rows, RowId, VisibleRequests(reqs)[k].id)
    ensures forall i | 0 <= i < |reqs| && IsVisible(reqs[i]) :: HasKey(rows, RowId, reqs[i].id)
  {
    var visible := VisibleRequests(reqs);
    forall i | 0 <= i < |reqs| && IsVisible(reqs[i]) ensures HasKey(rows, RowId, reqs[i].id) {
      assert reqs[i] in visible;
      var k :| 0 <= k < |visible| && visible[k] == reqs[i];
    }
  }

  /** Every transfer row comes from a request in a visible state, so requests
      whose state is unknown or `Initial` never yield one. */
  lemma TransferRowsAreVisible(eps: seq<EndpointInfo>, reqs: seq<Request>)
    ensures var rows := DisplayedItems(eps, reqs);
      forall j | 0 <= j < |rows| && !rows[j].endpoint ::
        exists i | 0 <= i < |reqs| :: reqs[i].id == rows[j].id && IsVisible(reqs[i])
  {
    DisplayedItemsSpec(eps, reqs);
    var rows := DisplayedItems(eps, reqs);
    var visible := VisibleRequests(reqs);
    forall j | 0 <= j < |rows| && !rows[j].endpoint
      ensures exists i | 0 <= i < |reqs| :: reqs[i].id == rows[j].id && IsVisible(reqs[i])
    {
      var k :| 0 <= k < |visible| && visible[k].id == rows[j].id;
      assert visible[k] in reqs && IsVisible(visible[k]);
      var i :| 0 <= i < |reqs| && reqs[i] == visible[k];
    }
  }

  // ---------------------------------------------------------------------
  // removeRequest

  /** `removeRequest`: drop the first request with the id, if any. */
  function RemoveRequest(reqs: seq<Request>, id: string): (r: seq<Request>)
    ensures !HasKey(reqs, RequestId, id) ==> r == reqs
    ensures HasKey(reqs, RequestId, id) ==>
      var i := IndexOf(reqs, RequestId, id).value;
      && |r| == |reqs| - 1
      && (forall j | 0 <= j < i :: r[j] == reqs[j])
      && (forall j | i <= j < |r| :: r[j] == reqs[j + 1])
  {
    match IndexOf(reqs, RequestId, id)
    case None => reqs
    case Some(i) => reqs[..i] + reqs[i + 1..]
  }

  /** Removal takes out exactly one request, and putting it back at its
      place undoes the removal. */
  lemma RemoveRequestInverse(reqs: seq<Request>, id: string)
    requires HasKey(reqs, RequestId, id)
    ensures var i := IndexOf(reqs, RequestId, id).value;
      var r := RemoveRequest(reqs, id);
      && r[..i] + [reqs[i]] + r[i..] == reqs
      && multiset(r) + multiset{reqs[i]} == multiset(reqs)
  {
    var i := IndexOf(reqs, RequestId, id).value;
    var r := RemoveRequest(reqs, id);
    assert r == reqs[..i] + reqs[i + 1..];
    assert r[..i] == reqs[..i] && r[i..] == reqs[i + 1..];
    assert reqs[..i] + [reqs[i]] + reqs[i + 1..] == reqs;
    calc {
      multiset(reqs);
      multiset(reqs[..i] + [reqs[i]] + reqs[i + 1..]);
      multiset(reqs[..i]) + multiset{reqs[i]} + multiset(reqs[i + 1..]);
      multiset(r) + multiset{reqs[i]};
    }
  }

  /** With unique ids, removal makes the id disappear and keeps the rest
      unique. */
  lemma RemoveRequestUnique(reqs: seq<Request>, id: string)
    requires UniqueKeys(reqs, RequestId)
    ensures !HasKey(RemoveRequest(reqs, id), RequestId, id)
    ensures UniqueKeys(RemoveRequest(reqs, id), RequestId)
  {
    var r := RemoveRequest(reqs, id);
    if HasKey(reqs, RequestId, id) {
      var i := IndexOf(reqs, RequestId, id).value;
      forall j | 0 <= j < |r| ensures r[j].id != id {
        if j < i { assert r[j] == reqs[j]; } else { assert r[j] == reqs[j + 1]; }
      }
      forall j, k | 0 <= j < k < |r| ensures r[j].id != r[k].id {
        var j' := if j < i then j else j + 1;
        var k' := if k < i then k else k + 1;
        assert r[j] == reqs[j'] && r[k] == reqs[k'];
      }
    }
  }

  // ---------------------------------------------------------------------
  // Commands

  /** JavaScript truthiness of the endpoint's address: a non-empty IP and a
      non-zero port. */
  predicate IsAddressable(ep: EndpointInfo)
  {
    ep.ip.Some? && |ep.ip.value| > 0 && ep.port.Some? && ep.port.value != 0
  }

  /** `sendInfo`: the request sent to the backend, or `None` when nothing is
      staged, the endpoint is unknown, or it has no usable address. */
  function SendInfoFor(outbound: Option<OutboundPayload>, eps: seq<EndpointInfo>, eid: string): (r: Option<SendInfo>)
    ensures r.Some? <==>
      outbound.Some? && HasKey(eps, EndpointId, eid) && IsAddressable(eps[IndexOf(eps, EndpointId, eid).value])
    ensures r.Some? ==>
      var ep := eps[IndexOf(eps, EndpointId, eid).value];
      && r.value.id == eid
      && r.value.name == (if ep.name.Some? then ep.name.value else "Unknown")
      && ParseAddr(r.value.addr) == Some((ep.ip.value, ep.port.value))
      && r.value.ob == outbound.value
  {
    if outbound.None? then None
    else match IndexOf(eps, EndpointId, eid)
      case None => None
      case Some(k) =>
        var ep := eps[k];
        if IsAddressable(ep) then
          FormatAddrRoundTrip(ep.ip.value, ep.port.value);
          Some(SendInfo(ep.id, ep.name.GetOr("Unknown"), FormatAddr(ep.ip.value, ep.port.value), outbound.value))
        else None
  }

  /** A port of 0 or an empty IP counts as missing. */
  lemma ZeroPortSendsNothing(ob: OutboundPayload, ep: EndpointInfo)
    requires ep.port == Some(0) || ep.ip == Some("") || ep.ip.None? || ep.port.None?
    ensures SendInfoFor(Some(ob), [ep], ep.id).None?
  {
  }

  /** The command envelope the front end sends for an action. */
  datatype FrontCommand<A> = FrontCommand(
    id: string,
    direction: string,
    action: A,
    meta: Option<RequestMeta>,
    state: Option<TransferState>,
    rtype: Option<DeviceType>)

  /** `sendCmd`: a front-to-backend command carrying only the id and action. */
  function SendCmd<A>(id: string, action: A): (cm: FrontCommand<A>)
    ensures cm.id == id && cm.action == action
    ensures cm.direction == "FrontToLib"
    ensures cm.meta.None? && cm.state.None? && cm.rtype.None?
  {
    FrontCommand(id, "FrontToLib", action, None, None, None)
  }

  /** Both front ends turn a user's choice into the same request: the Vue
      command and the egui library message carry the same transfer id and
      the same action. */
  lemma SameIntentInBothFrontEnds(id: string, action: Channel.TransferAction)
    ensures SendCmd(id, action).id == EguiApp.SendAction(id, action).id
    ensures Channel.Lib(SendCmd(id, action).action) == EguiApp.SendAction(id, action).msg
  {
  }
}
