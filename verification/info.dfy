/** Records the core reads but that are declared elsewhere in the backend
    (`TransferMetadata`, `TransferPayload`, `RemoteDeviceInfo`,
    `EndpointInfo`, `OutboundPayload`, `SendInfo`). Each keeps only the fields
    the modelled code touches. */
module Info {
  import opened Ints
  import opened Nullable
  import opened Strings

  datatype DeviceType = Unknown | Phone | Tablet | Laptop

  datatype RemoteDeviceInfo = RemoteDeviceInfo(name: string, device_type: DeviceType)

  /** What a transfer carries; a Wi-Fi share is known here by its SSID. */
  datatype TransferPayload =
    | Files(paths: seq<string>)
    | Text(text: string)
    | Url(url: string)
    | Wifi(ssid: string)

  datatype TransferMetadata = TransferMetadata(
    source: Option<RemoteDeviceInfo>,
    pin_code: Option<string>,
    payload: Option<TransferPayload>,
    total_bytes: u64,
    ack_bytes: u64)

  /** A discovered peer. The port is a number, so a port of 0 is "falsy" to
      the TypeScript front end. */
  datatype EndpointInfo = EndpointInfo(
    id: string,
    name: Option<string>,
    ip: Option<string>,
    port: Option<nat>,
    rtype: Option<DeviceType>)

  function EndpointId(e: EndpointInfo): string { e.id }

  datatype OutboundPayload = OutboundFiles(files: seq<string>)

  /** The request handed to the backend to start sending to a peer. */
  datatype SendInfo = SendInfo(id: string, name: string, addr: string, ob: OutboundPayload)

  /** `"{ip}:{port}"` */
  function FormatAddr(ip: string, port: nat): (addr: string)
    ensures |addr| > |ip| + 1
    ensures addr[..|ip|] == ip && addr[|ip|] == ':'
    ensures AllDigits(addr[|ip| + 1..])
  {
    ip + ":" + NatToString(port)
  }

  /** Reads an address back by cutting at its last colon, so that an IPv6
      host, which holds colons itself, still comes back whole. */
  function ParseAddr(addr: string): Option<(string, nat)>
  {
    match LastIndexOfChar(addr, ':')
    case None => None
    case Some(i) =>
      var port := addr[i + 1..];
      if |port| > 0 && AllDigits(port) then Some((addr[..i], DigitsValue(port))) else None
  }

  /** The address string names exactly the host and port it was built from. */
  lemma FormatAddrRoundTrip(ip: string, port: nat)
    ensures ParseAddr(FormatAddr(ip, port)) == Some((ip, port))
  {
    var addr := FormatAddr(ip, port);
    var digits := NatToString(port);
    assert ':' !in digits by {
      forall k | 0 <= k < |digits| ensures digits[k] != ':' {
        assert IsDigit(digits[k]);
      }
    }
    assert addr[|ip|] == ':';
    assert addr[|ip| + 1..] == digits;
    assert addr[..|ip|] == ip;
    DigitsValueOfNatToString(port);
  }
}
