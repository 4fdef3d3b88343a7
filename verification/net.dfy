/** Addresses shared by the per-connection tables of the system. */
module Net {

  /** A TCP endpoint: an IP address (as text) and a port. */
  datatype Endpoint = Endpoint(ip: string, port: int)

  /** The directed 4-tuple `(src_ip, src_port, dst_ip, dst_port)`. */
  datatype ConnKey = ConnKey(srcIp: string, srcPort: int, dstIp: string, dstPort: int)
  {
    /** The same connection seen from the other side. */
    function Reverse(): (r: ConnKey)
      ensures r.Src() == Dst() && r.Dst() == Src()
    {
      ConnKey(dstIp, dstPort, srcIp, srcPort)
    }

    /** Reversing twice gives the connection back. */
    lemma ReverseTwice()
      ensures Reverse().Reverse() == this
    {
    }

    function Src(): Endpoint {
      Endpoint(srcIp, srcPort)
    }

    function Dst(): Endpoint {
      Endpoint(dstIp, dstPort)
    }
  }
}
