/**
 * `AzureIpRangesSource`: a SAX pass over the Azure datacenter XML. A `Region`
 * element sets the current region from its `Name` attribute; each `IpRange`
 * element yields one record for its `Subnet` CIDR, tagged with the current region.
 */
module AzureSource {
  import opened Wrappers
  import opened Records

  const NAME: string := "AZURE"
  const KEY_REGION: string := "region"
  const EL_REGION: string := "Region"
  const ATT_NAME: string := "Name"
  const EL_IPRANGE: string := "IpRange"
  const ATT_SUBNET: string := "Subnet"

  /** A `startElement` event: the qualified name and the attributes. */
  datatype Element = Element(qName: string, attrs: map<string, string>)

  /** `attributes.getValue(name)`: null when absent. */
  function Attr(e: Element, name: string): Option<string>
  {
    if name in e.attrs then Some(e.attrs[name]) else None
  }

  predicate IsRegion(e: Element)
  {
    e.qName == EL_REGION
  }

  predicate IsIpRange(e: Element)
  {
    e.qName == EL_IPRANGE
  }

  /** The parsed `Subnet` attribute; `None` when it is missing (a null argument) or malformed. */
  function Subnet(parse: CidrParser, e: Element): Option<AddressRange>
  {
    match Attr(e, ATT_SUBNET)
    case None => None
    case Some(text) => parse(text)
  }

  /** The handler's fields: the records so far and the current region (null at first). */
  datatype Handler = Handler(ranges: seq<IpRangeInfos>, region: Option<string>)

  /** `startElement`; `None` is the exception a missing or malformed subnet raises. */
  function StartElement(parse: CidrParser, h: Handler, e: Element): Option<Handler>
  {
    if IsRegion(e) then Some(h.(region := Attr(e, ATT_NAME)))
    else if IsIpRange(e) then
      match Subnet(parse, e)
      case None => None
      case Some(range) => Some(h.(ranges := h.ranges + [IpRangeInfos(range, map[KEY_REGION := h.region])]))
    else Some(h)
  }

  /** The handler after the given events, in document order. */
  function HandleAll(parse: CidrParser, events: seq<Element>): Option<Handler>
  {
    if |events| == 0 then Some(Handler([], None))
    else match HandleAll(parse, events[..|events| - 1])
      case None => None
      case Some(h) => StartElement(parse, h, events[|events| - 1])
  }

  /** What the reader provider gave: no reader, an I/O failure, or a document. */
  datatype Document =
    | NoReader
    | ReaderFailed
    | Malformed
    | Parsed(events: seq<Element>)

  /**
   * `getIpRanges()`: no reader gives the empty list; any exception during parsing
   * is rethrown as an `IOException`.
   */
  function AzureRanges(parse: CidrParser, doc: Document): (r: Result<seq<IpRangeInfos>, Failure>)
    ensures doc.NoReader? ==> r == Success([])
    ensures doc.ReaderFailed? || doc.Malformed? ==> r == Failure(IOError)
    ensures r.Failure? ==> r.error == IOError
    ensures doc.Parsed? ==> (r.Success? <==> HandleAll(parse, doc.events).Some?)
  {
    match doc
    case NoReader => Success([])
    case ReaderFailed => Failure(IOError)
    case Malformed => Failure(IOError)
    case Parsed(events) =>
      match HandleAll(parse, events)
      case None => Failure(IOError)
      case Some(h) => Success(h.ranges)
  }

  // ---------------------------------------------------------------------------
  // reference definition: one record per IpRange element, with the region in force there

  /** The `Name` of the last `Region` element before position `i`, or null if there is none. */
  function RegionAt(events: seq<Element>, i: nat): Option<string>
    requires i <= |events|
  {
    if i == 0 then None
    else if IsRegion(events[i - 1]) then Attr(events[i - 1], ATT_NAME)
    else RegionAt(events, i - 1)
  }

  /** The positions of the `IpRange` elements, in document order. */
  function IpRangePositions(events: seq<Element>): (r: seq<nat>)
    ensures forall k :: 0 <= k < |r| ==> r[k] < |events| && IsIpRange(events[r[k]])
    ensures forall j, k :: 0 <= j < k < |r| ==> r[j] < r[k]
    ensures forall i :: 0 <= i < |events| && IsIpRange(events[i]) ==> i in r
  {
    if |events| == 0 then []
    else
      var init := IpRangePositions(events[..|events| - 1]);
      if IsIpRange(events[|events| - 1]) then init + [|events| - 1] else init
  }

  /** Every `IpRange` element has a subnet that parses. */
  predicate SubnetsParse(parse: CidrParser, events: seq<Element>)
  {
    forall i :: 0 <= i < |events| && IsIpRange(events[i]) ==> Subnet(parse, events[i]).Some?
  }

  lemma {:induction false} RegionAtPrefix(events: seq<Element>, n: nat, i: nat)
    requires i <= n <= |events|
    ensures RegionAt(events[..n], i) == RegionAt(events, i)
    decreases i
  {
    if i > 0 {
      assert events[..n][i - 1] == events[i - 1];
      RegionAtPrefix(events, n, i - 1);
    }
  }

  /**
   * The handler's state agrees with the reference definition: the current region
   * is the one in force after the elements, and there is one record per
   * `IpRange` element, in order, with its subnet and the region in force there.
   */
  predicate AgreesWith(parse: CidrParser, events: seq<Element>, h: Handler)
  {
    var pos := IpRangePositions(events);
    h.region == RegionAt(events, |events|)
    && |h.ranges| == |pos|
    && forall k :: 0 <= k < |pos| ==>
         Subnet(parse, events[pos[k]]) == Some(h.ranges[k].range)
         && h.ranges[k].infos == map[KEY_REGION := RegionAt(events, pos[k])]
  }

  /**
   * The handler succeeds exactly when every `IpRange` subnet parses; then it
   * yields one record per `IpRange` element, in document order, each carrying
   * exactly the region in force at that element.
   */
  lemma {:induction false} HandleAllMatchesElements(parse: CidrParser, events: seq<Element>)
    ensures HandleAll(parse, events).Some? <==> SubnetsParse(parse, events)
    ensures HandleAll(parse, events).Some? ==> AgreesWith(parse, events, HandleAll(parse, events).value)
    decreases |events|
  {
    if |events| > 0 {
      var init := events[..|events| - 1];
      HandleAllMatchesElements(parse, init);
      SubnetsParseSnoc(parse, events);
      if HandleAll(parse, init).Some? {
        HandleStep(parse, events, HandleAll(parse, init).value);
      }
    }
  }

  /** One more element keeps the handler in agreement with the reference definition. */
  lemma HandleStep(parse: CidrParser, events: seq<Element>, h: Handler)
    requires |events| > 0
    requires AgreesWith(parse, events[..|events| - 1], h)
    ensures var e := events[|events| - 1];
      StartElement(parse, h, e).Some? ==> AgreesWith(parse, events, StartElement(parse, h, e).value)
  {
    var n := |events|;
    var init := events[..n - 1];
    var e := events[n - 1];
    var pos := IpRangePositions(init);
    AgreesOnLongerPrefix(parse, events, h);
    if IsIpRange(e) && Subnet(parse, e).Some? {
      var h' := StartElement(parse, h, e).value;
      var pos' := IpRangePositions(events);
      assert pos' == pos + [n - 1];
      assert RegionAt(events, n) == RegionAt(events, n - 1);
      forall k | 0 <= k < |pos'| ensures Subnet(parse, events[pos'[k]]) == Some(h'.ranges[k].range)
        && h'.ranges[k].infos == map[KEY_REGION := RegionAt(events, pos'[k])]
      {
        if k < |pos| {
          assert h'.ranges[k] == h.ranges[k] && pos'[k] == pos[k];
        }
      }
    } else if !IsIpRange(e) {
      assert IpRangePositions(events) == pos;
    }
  }

  /** The records of the shorter prefix carry the same regions when read against the whole sequence. */
  lemma AgreesOnLongerPrefix(parse: CidrParser, events: seq<Element>, h: Handler)
    requires |events| > 0
    requires AgreesWith(parse, events[..|events| - 1], h)
    ensures var pos := IpRangePositions(events[..|events| - 1]);
      h.region == RegionAt(events, |events| - 1)
      && forall k :: 0 <= k < |pos| ==>
           Subnet(parse, events[pos[k]]) == Some(h.ranges[k].range)
           && h.ranges[k].infos == map[KEY_REGION := RegionAt(events, pos[k])]
  {
    var n := |events|;
    var init := events[..n - 1];
    var pos := IpRangePositions(init);
    RegionAtPrefix(events, n - 1, n - 1);
    forall k | 0 <= k < |pos| ensures RegionAt(init, pos[k]) == RegionAt(events, pos[k]) && init[pos[k]] == events[pos[k]] {
      RegionAtPrefix(events, n - 1, pos[k]);
    }
  }

  /** The subnets of a sequence parse when those before the last element do and the last one's does. */
  lemma SubnetsParseSnoc(parse: CidrParser, events: seq<Element>)
    requires |events| > 0
    ensures var n := |events|;
      SubnetsParse(parse, events) <==> (SubnetsParse(parse, events[..n - 1])
        && (IsIpRange(events[n - 1]) ==> Subnet(parse, events[n - 1]).Some?))
  {
    var init := events[..|events| - 1];
    assert forall i :: 0 <= i < |init| ==> init[i] == events[i];
  }

  /** `getIpRanges()` on a parsed document, stated against the elements alone. */
  lemma AzureRangesOfDocument(parse: CidrParser, events: seq<Element>)
    ensures AzureRanges(parse, Parsed(events)).Success? <==> SubnetsParse(parse, events)
    ensures AzureRanges(parse, Parsed(events)).Success? ==>
      var r := AzureRanges(parse, Parsed(events)).value;
      var pos := IpRangePositions(events);
      |r| == |pos|
      && forall k :: 0 <= k < |pos| ==>
           r[k].range == Subnet(parse, events[pos[k]]).value
           && r[k].infos == map[KEY_REGION := RegionAt(events, pos[k])]
  {
    HandleAllMatchesElements(parse, events);
  }
}
