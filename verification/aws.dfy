/**
 * `AwsIpRangesSource`: reads Amazon's `ip-ranges.json` and turns each entry of
 * its `prefixes` array into a record tagged with the entry's service and region.
 * Entries are kept in file order, duplicates and overlaps included.
 */
module AwsSource {
  import opened Wrappers
  import opened Records

  const NAME: string := "AWS"
  const KEY_SERVICE: string := "service"
  const KEY_REGION: string := "region"

  /** One decoded `prefixes` entry; a field missing from the JSON is null. */
  datatype AwsPrefix = AwsPrefix(ipPrefix: Option<string>, region: Option<string>, service: Option<string>)

  /** The decoded document: `prefixes` defaults to an empty list and is null only when the JSON says so. */
  datatype AwsIpRanges = AwsIpRanges(prefixes: Option<seq<AwsPrefix>>)

  /**
   * One entry: `parseCidr` rejects a null or malformed prefix, and
   * `ImmutableMap.of` rejects a null service or region.
   */
  function PrefixRecord(parse: CidrParser, p: AwsPrefix): (r: Result<IpRangeInfos, Failure>)
    ensures r.Success? <==> p.ipPrefix.Some? && parse(p.ipPrefix.value).Some? && p.service.Some? && p.region.Some?
    ensures r.Failure? ==> r.error == RuntimeError
    ensures r.Success? ==> (Some(r.value.range) == parse(p.ipPrefix.value)
      && r.value.infos.Keys == {KEY_SERVICE, KEY_REGION}
      && r.value.infos[KEY_SERVICE] == p.service && r.value.infos[KEY_REGION] == p.region)
  {
    match p.ipPrefix
    case None => Failure(RuntimeError)
    case Some(text) =>
      match parse(text)
      case None => Failure(RuntimeError)
      case Some(range) =>
        if p.service.None? || p.region.None? then Failure(RuntimeError)
        else Success(IpRangeInfos(range, map[KEY_SERVICE := p.service, KEY_REGION := p.region]))
  }

  /** The loop over the entries; the first bad entry aborts. */
  function PrefixRecords(parse: CidrParser, prefixes: seq<AwsPrefix>): (r: Result<seq<IpRangeInfos>, Failure>)
    ensures r.Success? <==> forall i :: 0 <= i < |prefixes| ==> PrefixRecord(parse, prefixes[i]).Success?
    ensures r.Failure? ==> r.error == RuntimeError
    ensures r.Success? ==> (|r.value| == |prefixes|
      && forall i :: 0 <= i < |prefixes| ==> PrefixRecord(parse, prefixes[i]) == Success(r.value[i]))
  {
    MapAll(prefixes, p => PrefixRecord(parse, p))
  }

  /**
   * `getIpRanges()`: the reader or the JSON mapper fails with an `IOException`;
   * a null `prefixes` list makes the loop throw.
   */
  function AwsRanges(parse: CidrParser, decoded: Result<AwsIpRanges, Failure>): (r: Result<seq<IpRangeInfos>, Failure>)
    ensures decoded.Failure? ==> r == Failure(decoded.error)
    ensures decoded.Success? && decoded.value.prefixes.None? ==> r == Failure(RuntimeError)
    ensures decoded.Success? && decoded.value.prefixes.Some? ==> r == PrefixRecords(parse, decoded.value.prefixes.value)
  {
    match decoded
    case Failure(e) => Failure(e)
    case Success(doc) =>
      match doc.prefixes
      case None => Failure(RuntimeError)
      case Some(prefixes) => PrefixRecords(parse, prefixes)
  }

  /**
   * The sample document: four entries, one prefix listed twice for two
   * services, give four records in order, each with exactly a service and a
   * region.
   */
  lemma SampleDocument(parse: CidrParser, a: string, b: string, c: string, r1: AddressRange, r2: AddressRange, r3: AddressRange)
    requires parse(a) == Some(r1) && parse(b) == Some(r2) && parse(c) == Some(r3)
    ensures var doc := AwsIpRanges(Some([
        AwsPrefix(Some(a), Some("us-east-1"), Some("AMAZON")),
        AwsPrefix(Some(b), Some("ap-northeast-1"), Some("AMAZON")),
        AwsPrefix(Some(a), Some("us-east-1"), Some("EC2")),
        AwsPrefix(Some(c), Some("eu-west-1"), Some("EC2"))]));
      var r := AwsRanges(parse, Success(doc));
      r.Success? && |r.value| == 4
      && r.value[0].range == r1 && |r.value[0].infos| == 2
      && r.value[0].infos[KEY_REGION] == Some("us-east-1") && r.value[0].infos[KEY_SERVICE] == Some("AMAZON")
      && r.value[2].range == r1 && r.value[2].infos[KEY_SERVICE] == Some("EC2")
  {
    var prefixes := [
      AwsPrefix(Some(a), Some("us-east-1"), Some("AMAZON")),
      AwsPrefix(Some(b), Some("ap-northeast-1"), Some("AMAZON")),
      AwsPrefix(Some(a), Some("us-east-1"), Some("EC2")),
      AwsPrefix(Some(c), Some("eu-west-1"), Some("EC2"))];
    var r := PrefixRecords(parse, prefixes);
    assert PrefixRecord(parse, prefixes[0]) == Success(r.value[0]);
    assert PrefixRecord(parse, prefixes[2]) == Success(r.value[2]);
    assert |{KEY_SERVICE, KEY_REGION}| == 2;
  }
}
