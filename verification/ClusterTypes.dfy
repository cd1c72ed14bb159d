/** Entities that several components share. */
module ClusterTypes {
  const U16 := 0x1_0000
  type u16 = n: nat | n < U16

  datatype ServicePort = ServicePort(port: u16, targetPort: u16)

  /** Census of pods on other nodes: the node's API address and the pod's name. */
  datatype PeerPod = PeerPod(addr: string, pod: string)
}
