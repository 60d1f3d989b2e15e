/** The types that several files share. */
module Types {

  /** A token or contract address, as the 0x string that ethers reports. */
  type Address = string
}
