/** The part of the master's slave table that the topology and clock code works on. */
module SlaveList {

  /** A four-bit port map, one flag per port. */
  datatype Ports = Ports(m0: bool, m1: bool, m2: bool, m3: bool)

  /** One record of the slave table. Record 0 belongs to the master. */
  datatype SlaveInfo = SlaveInfo(
    hasdc: bool,
    topology: nat,
    activeports: Ports,
    consumedports: Ports,
    parent: nat,
    parentport: nat,
    entryport: nat,
    rtA: int, rtB: int, rtC: int, rtD: int,
    pdelay: int,
    dcNext: nat,
    dcPrevious: nat)
}
