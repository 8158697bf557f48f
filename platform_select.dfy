/** The two-way platform switch that every platform-dependent value of the
    extension goes through: Windows (`process.platform` is "win32") or
    everything else. */
module Platform {

  /** The platform string under which the Windows variant is chosen. */
  const Win32 := "win32"

  /** `platformSelect({windows, default})` evaluated on `platform`. */
  function PlatformSelect<T>(platform: string, windows: T, other: T): (r: T)
    ensures r == windows || r == other
    ensures platform == Win32 ==> r == windows
    ensures platform != Win32 ==> r == other
  {
    match platform
    case "win32" => windows
    case _ => other
  }

  /** When both variants agree, the platform does not matter. */
  lemma SelectSameVariant<T>(p: string, q: string, x: T)
    ensures PlatformSelect(p, x, x) == PlatformSelect(q, x, x) == x
  {
  }

  /** Every platform other than "win32" gets the same variant. */
  lemma NonWindowsPlatformsAgree<T>(p: string, q: string, windows: T, other: T)
    requires p != Win32 && q != Win32
    ensures PlatformSelect(p, windows, other) == PlatformSelect(q, windows, other)
  {
  }
}
