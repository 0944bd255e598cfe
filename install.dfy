/** The install-prompt controller of `initPWA`: the one-hour dismissal
    rule, the platform label chain, and the banner / captured-prompt /
    stored-timestamp state driven by the page's events. */
module InstallPrompt {
  import opened Common
  import opened Text

  /** `60 * 60 * 1000`: the dismissal window in milliseconds. */
  const OneHourMs: int := 60 * 60 * 1000

  /** `shouldShowBanner`: eligible when no dismissal time is stored, or when
      more than one hour (strictly) has passed since the stored time. */
  function ShouldShowBanner(stored: Option<int>, now: int): bool
  {
    stored.None? || now - stored.value > OneHourMs
  }

  lemma ThirtyMinutesAfterDismissalHidden(t: int)
    ensures !ShouldShowBanner(Some(t), t + 30 * 60 * 1000)
  {
  }

  lemma SixtyOneMinutesAfterDismissalShown(t: int)
    ensures ShouldShowBanner(Some(t), t + 61 * 60 * 1000)
  {
  }

  lemma ExactlyOneHourAfterDismissalHidden(t: int)
    ensures !ShouldShowBanner(Some(t), t + 3600000)
  {
  }

  /** Once eligible, the banner stays eligible as time goes on. */
  lemma EligibilityIsMonotone(stored: Option<int>, now: int, later: int)
    requires now <= later && ShouldShowBanner(stored, now)
    ensures ShouldShowBanner(stored, later)
  {
  }

  /** The label written into the install button: a Font Awesome icon class
      and the button text. */
  datatype ButtonLabel = ButtonLabel(icon: string, text: string)

  const AndroidLabel := ButtonLabel("fab fa-android", "Install for Android")
  const DesktopLabel := ButtonLabel("fas fa-desktop", "Install App")
  const AppleLabel := ButtonLabel("fab fa-apple", "Install App")
  const DownloadLabel := ButtonLabel("fas fa-download", "Install App")

  /** `/iPad|iPhone|iPod/.test(navigator.userAgent) && !window.MSStream`:
      a case-sensitive test on the raw user-agent string. */
  predicate IsIOS(userAgent: string, msStream: bool)
  {
    (Contains(userAgent, "iPad") || Contains(userAgent, "iPhone") || Contains(userAgent, "iPod"))
    && !msStream
  }

  /** The first-match chain of `showBanner`: Android, then Windows/Mac, then
      iOS, then the generic download label. The first two tests are on the
      lower-cased user agent. */
  function PlatformLabel(userAgent: string, msStream: bool): ButtonLabel
  {
    var ua := Lower(userAgent);
    if Contains(ua, "android") then AndroidLabel
    else if Contains(ua, "windows") || Contains(ua, "mac") then DesktopLabel
    else if IsIOS(userAgent, msStream) then AppleLabel
    else DownloadLabel
  }

  /** The label chain tells every platform apart: the four labels differ. */
  lemma LabelsAreDistinct()
    ensures AndroidLabel != DesktopLabel && AndroidLabel != AppleLabel && AndroidLabel != DownloadLabel
    ensures DesktopLabel != AppleLabel && DesktopLabel != DownloadLabel && AppleLabel != DownloadLabel
  {
  }

  /** Whatever the case of the letters, "Android" in the user agent wins. */
  lemma AndroidInAnyCaseGetsAndroidLabel(userAgent: string, msStream: bool)
    requires Contains(Lower(userAgent), "android")
    ensures PlatformLabel(userAgent, msStream) == AndroidLabel
  {
  }

  /** The Apple label is only reached by an iOS user agent that mentions
      neither Android, Windows nor Mac in any letter case. */
  lemma AppleLabelNeedsIOSWithoutMac(userAgent: string, msStream: bool)
    requires PlatformLabel(userAgent, msStream) == AppleLabel
    ensures IsIOS(userAgent, msStream)
    ensures !Contains(Lower(userAgent), "android")
    ensures !Contains(Lower(userAgent), "windows") && !Contains(Lower(userAgent), "mac")
  {
  }

  /** iPhone Safari sends "... like Mac OS X ...": the desktop test sees
      "mac" first, so such a user agent gets the desktop label, not the
      Apple one. */
  lemma IPhoneWithMacOSGetsDesktopLabel(userAgent: string, msStream: bool)
    requires Contains(userAgent, "iPhone") && Contains(userAgent, "Mac")
    requires !Contains(Lower(userAgent), "android")
    ensures PlatformLabel(userAgent, msStream) == DesktopLabel
  {
    LowerContains(userAgent, "Mac");
    assert Lower("Mac") == "mac";
  }

  /** The outcome of `deferredPrompt.userChoice`. */
  datatype Choice = Accepted | Declined

  /** The DOM and storage state `initPWA` works on, once the banner and the
      install button exist (otherwise it returns before wiring anything). */
  class Controller {
    /** `installBanner.style.display` */
    var bannerDisplay: Display
    /** `installBtn.innerHTML` */
    var buttonLabel: ButtonLabel
    /** whether `deferredPrompt` holds a captured `beforeinstallprompt` event */
    var hasDeferredPrompt: bool
    /** `localStorage['pwaDismissedTime']` */
    var storedDismissal: Option<int>
    /** whether the `#close-install` button exists */
    const hasCloseButton: bool

    constructor (stored: Option<int>, initialLabel: ButtonLabel, hasCloseButton: bool)
      ensures bannerDisplay == Unset && buttonLabel == initialLabel
      ensures !hasDeferredPrompt && storedDismissal == stored
      ensures this.hasCloseButton == hasCloseButton
    {
      bannerDisplay := Unset;
      buttonLabel := initialLabel;
      hasDeferredPrompt := false;
      storedDismissal := stored;
      this.hasCloseButton := hasCloseButton;
    }

    /** `beforeinstallprompt`: keep the event for later; show nothing yet. */
    method CapturePrompt()
      modifies this`hasDeferredPrompt
      ensures hasDeferredPrompt
    {
      hasDeferredPrompt := true;
    }

    /** The 4 s timer: outside standalone mode, `showBanner` shows the banner
        and writes the platform label when the banner is eligible; otherwise
        nothing changes. */
    method TimerFired(standalone: bool, now: int, userAgent: string, msStream: bool)
      modifies this`bannerDisplay, this`buttonLabel
      ensures !standalone && ShouldShowBanner(storedDismissal, now) ==>
                bannerDisplay == Flex && buttonLabel == PlatformLabel(userAgent, msStream)
      ensures standalone || !ShouldShowBanner(storedDismissal, now) ==>
                bannerDisplay == old(bannerDisplay) && buttonLabel == old(buttonLabel)
    {
      if !standalone {
        if ShouldShowBanner(storedDismissal, now) {
          bannerDisplay := Flex;
          buttonLabel := PlatformLabel(userAgent, msStream);
        }
      }
    }

    /** A click on the install button. With a captured prompt the user's
        choice is awaited, the capture is dropped only on acceptance, and the
        banner is hidden either way. Without one, an iOS device gets the
        manual instructions (`alerted`) and the banner is left as it is. */
    method InstallClick(choice: Choice, userAgent: string, msStream: bool) returns (alerted: bool)
      modifies this`bannerDisplay, this`hasDeferredPrompt
      ensures old(hasDeferredPrompt) ==>
                bannerDisplay == DisplayNone && !alerted
                && hasDeferredPrompt == (choice != Accepted)
      ensures !old(hasDeferredPrompt) ==>
                bannerDisplay == old(bannerDisplay) && !hasDeferredPrompt
                && alerted == IsIOS(userAgent, msStream)
    {
      alerted := false;
      if hasDeferredPrompt {
        if choice == Accepted {
          hasDeferredPrompt := false;
        }
        bannerDisplay := DisplayNone;
      } else if IsIOS(userAgent, msStream) {
        alerted := true;
      }
    }

    /** A click on the close button: hide the banner and store `now`. The
        captured prompt, if any, is kept. */
    method CloseClick(now: int)
      requires hasCloseButton
      modifies this`bannerDisplay, this`storedDismissal
      ensures bannerDisplay == DisplayNone && storedDismissal == Some(now)
      ensures !ShouldShowBanner(storedDismissal, now)
    {
      bannerDisplay := DisplayNone;
      storedDismissal := Some(now);
    }
  }

  /** After a dismissal at `t`, the banner is eligible again exactly from
      `t + 3600001` ms on. */
  lemma DismissalBlocksForOneHour(t: int, now: int)
    ensures ShouldShowBanner(Some(t), now) <==> now >= t + 3600001
  {
  }

  /** Dismissing and then letting the timer fire within the hour leaves the
      banner hidden and the label unchanged. */
  method DismissThenTimer(c: Controller, t: int, later: int, userAgent: string, msStream: bool)
    requires c.hasCloseButton && t <= later <= t + OneHourMs
    modifies c
    ensures c.bannerDisplay == DisplayNone && c.buttonLabel == old(c.buttonLabel)
  {
    c.CloseClick(t);
    c.TimerFired(false, later, userAgent, msStream);
  }
}
