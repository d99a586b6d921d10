/**
 Addresses as the provider sees them once parsed: an address family and
 the address's integer value.
 */
module Addresses {

  /** The socket address family of an address: `AF_INET` (IPv4),
      `AF_INET6` (IPv6), or any other family code a caller passes in. */
  datatype Family = Inet | Inet6 | OtherFamily(code: int)

  /** A parsed address: its family and its value as an integer. */
  datatype Address = Address(family: Family, value: int)
}
