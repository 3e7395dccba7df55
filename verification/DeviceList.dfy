/** The swap loop that orders the array of libusb devices by bus and address. */
module DeviceList {
  import opened StableSort
  import opened Words

  /** A libusb device: the two one-byte numbers the library reports for it. */
  class LibusbDevice {
    const busNumber: byte
    const address: byte

    constructor (busNumber: byte, address: byte)
      ensures this.busNumber == busNumber && this.address == address
    {
      this.busNumber := busNumber;
      this.address := address;
    }
  }

  /** One number that orders devices by bus first and address second. */
  ghost function BusAddress(d: LibusbDevice): int { d.busNumber * 256 + d.address }

  /** Exchange two neighbouring entries of the array. */
  method SwapEntries(list: array<LibusbDevice>, i: nat)
    requires i + 1 < list.Length
    modifies list
    ensures list[..] == Exchange(old(list[..]), i)
  {
    var dev, devNext := list[i], list[i + 1];
    list[i] := devNext;
    list[i + 1] := dev;
  }

  /** Bubble sort in place: the array ends as its stable sort by bus, then address. */
  method SortDeviceList(list: array<LibusbDevice>)
    modifies list
    ensures list[..] == Sort(old(list[..]), BusAddress)
  {
    var sorted := false;
    ghost var now := list[..];
    while !sorted
      invariant list[..] == now && Sort(now, BusAddress) == Sort(old(list[..]), BusAddress)
      invariant sorted ==> now == Sort(now, BusAddress)
      decreases Inversions(now, BusAddress), !sorted
    {
      sorted := true;
      var i := 0;
      while i < list.Length - 1
        invariant 0 <= i && (i < list.Length || i == 0)
        invariant list[..] == Bubbled(now, BusAddress, i)
        invariant sorted == !Swaps(now, BusAddress, i)
      {
        var dev, devNext := list[i], list[i + 1];
        assert list[..][i] == dev && list[..][i + 1] == devNext;
        if (dev.busNumber == devNext.busNumber && dev.address > devNext.address)
           || dev.busNumber > devNext.busNumber {
          SwapEntries(list, i);
          sorted := false;
        }
        i := i + 1;
      }
      if list.Length > 0 {
        WholePass(now, BusAddress);
      }
      now := list[..];
    }
  }

  /** What the order means: later devices never have a smaller bus, nor a smaller
      address on the same bus, and no device is lost, duplicated or invented. */
  lemma SortedByBusThenAddress(was: seq<LibusbDevice>)
    ensures multiset(Sort(was, BusAddress)) == multiset(was)
    ensures forall i, j :: 0 <= i < j < |Sort(was, BusAddress)| ==>
              var a, b := Sort(was, BusAddress)[i], Sort(was, BusAddress)[j];
              a.busNumber < b.busNumber || (a.busNumber == b.busNumber && a.address <= b.address)
  {
    SortSorts(was, BusAddress);
    SortPermutes(was, BusAddress);
    var r := Sort(was, BusAddress);
    forall i, j | 0 <= i < j < |r|
      ensures r[i].busNumber < r[j].busNumber
              || (r[i].busNumber == r[j].busNumber && r[i].address <= r[j].address)
    {
      SortedPairs(r, BusAddress, i, j);
    }
  }
}
