/**
 * The record type every source produces (`IpRangeInfos`): an IPv4 address range
 * plus a string-to-string attribute map, and the exceptions the sources throw.
 */
module Records {
  import opened Wrappers

  /** Number of IPv4 addresses; an address is an unsigned 32-bit value. */
  const ADDRESS_COUNT: int := 0x1_0000_0000

  type Address = a: int | 0 <= a < ADDRESS_COUNT

  datatype Bounds = Bounds(first: Address, last: Address)

  /** A closed range of addresses, as `Ipv4Range` guarantees: start <= end. */
  type AddressRange = b: Bounds | b.first <= b.last witness Bounds(0, 0)

  predicate InRange(range: AddressRange, a: int)
  {
    range.first <= a <= range.last
  }

  /** A Java `Map<String, String>`; `None` is a null value stored under a key. */
  type Attrs = map<string, Option<string>>

  /** One source record: a range and its provider-defined attributes. */
  datatype IpRangeInfos = IpRangeInfos(range: AddressRange, infos: Attrs)

  /**
   * The exceptions that matter to the callers: checked `IOException`s and
   * unchecked `RuntimeException`s (`IllegalArgumentException`,
   * `NumberFormatException`, index-out-of-bounds, a wrapped `IOException`).
   */
  datatype Failure = IOError | RuntimeError

  /** `Ipv4Range.parseCidr` of the RIPE commons-ip library; `None` is its `IllegalArgumentException`. */
  type CidrParser = string -> Option<AddressRange>

  /** `Ipv4.parse` of the RIPE commons-ip library; `None` is its `IllegalArgumentException`. */
  type Ipv4Parser = string -> Option<Address>
}
