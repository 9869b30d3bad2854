/** Outcome types shared by the model: an optional value, and a value-or-error
    result whose error side enumerates the failures the Go package reports. */
module Results {

  datatype Option<+T> = None | Some(value: T)

  /** The failures the package returns as Go `error` values. Message texts are
      not modelled; each distinct cause is one variant. */
  datatype Error =
    | FileNotFound                    // os.ReadFile on a missing sysfs file (os.ErrNotExist)
    | FileUnreadable                  // any other os.ReadFile failure
    | BadHexSegment(token: string)    // "failed to parse hex segment: %s"
    | EvMaskCount(count: nat)         // "expected 1 bit mask for ..., got %d"
    | EnumerationFailed(cause: Error) // ListDevices: "Failed to get input device: %v"
    | DeviceNotOpen                   // Read or Close without a handle
    | DeviceAlreadyOpen               // Open with a handle already held
    | OpenFailed                      // os.Open refused the device node
    | DeviceReadFailed                // the handle's Read returned an error

  datatype Result<+T> = Ok(value: T) | Err(error: Error)
}
