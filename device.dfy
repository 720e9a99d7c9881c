/** The device record of types/device.go. `Devpath` is set when the device
    is created and never reassigned, so it is a constant; the other fields
    are filled in place by the scanner. */
module Devices {

  class Device {
    const Devpath: string
    var Env: map<string, string>
    var Attrs: map<string, string>
    var Tags: seq<string>
    var UsecInitialized: string
    var VendorID: string
    var ProductID: string
    var Parent: Device?
    var Children: seq<Device>

    /** The composite literal of the walk callback: only Devpath is given,
        Env and Attrs start empty, everything else at its zero value. */
    constructor (devpath: string)
      ensures Devpath == devpath
      ensures Env == map[] && Attrs == map[] && Tags == [] && UsecInitialized == ""
      ensures VendorID == "" && ProductID == ""
      ensures Parent == null && Children == []
    {
      Devpath := devpath;
      Env, Attrs, Tags, UsecInitialized := map[], map[], [], "";
      VendorID, ProductID := "", "";
      Parent, Children := null, [];
    }
  }

}
