/** Which record of an address table an address belongs to, as a plain search
    would find it. */
module AddressSearch {
  import opened Words
  import opened Model

  /** Entry `i` starts at the greatest start at or below the address and is
      empty or contains the address. */
  predicate Candidate(ranges: seq<AddressRange>, address: uint64, i: nat) {
    && i < |ranges|
    && ranges[i].start <= address
    && (forall k :: 0 <= k < |ranges| && ranges[k].start <= address ==> ranges[k].start <= ranges[i].start)
    && (ranges[i].IsEmpty() || ranges[i].Contains(address))
  }

  /** The first candidate in table order. */
  predicate Selected(ranges: seq<AddressRange>, address: uint64, i: nat) {
    Candidate(ranges, address, i) && forall j: nat :: j < i ==> !Candidate(ranges, address, j)
  }
}
