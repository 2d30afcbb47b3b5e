/** The fixed simulation constants that the host population reads. */
module Parameters {
  /** Initial number of hosts in a deme (individuals). */
  const InitialN: nat := 100

  /** Initial number of infected hosts in a deme (individuals). */
  const InitialI: nat := 1
}
