/** The entries `Socket.getifaddrs` reports, shared by `collect_interface_ips`
    and `collect_network_interfaces`. */
module Sockets {
  import opened Wrappers

  datatype Family = Inet | Inet6 | Link

  /** An `Addrinfo`: its family and its `ip_address`. */
  datatype Address = Address(family: Family, ip: string)

  /** One entry of `Socket.getifaddrs`; the address and the netmask may be
      absent (`nil`). */
  datatype IfAddr = IfAddr(name: string, addr: Option<Address>, netmask: Option<Address>)

  /** `Addrinfo#ipv4?`. */
  predicate Ipv4(a: Address) {
    a.family == Inet
  }
}
