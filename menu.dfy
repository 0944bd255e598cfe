/** The mobile navigation toggle of `initMobileMenu`. */
module MobileMenu {

  class Menu {
    /** whether `.nav-links` carries `active` */
    var navActive: bool
    /** whether the button's icon carries `fa-bars` / `fa-times` */
    var iconBars: bool
    var iconTimes: bool

    /** The icon matches the menu: a cross when open, bars when closed. */
    predicate Synced()
      reads this
    {
      iconTimes == navActive && iconBars == !navActive
    }

    constructor (navActive: bool, iconBars: bool, iconTimes: bool)
      ensures this.navActive == navActive && this.iconBars == iconBars && this.iconTimes == iconTimes
    {
      this.navActive := navActive;
      this.iconBars := iconBars;
      this.iconTimes := iconTimes;
    }

    /** A click on `.mobile-menu-btn`: toggle `active`, then set the icon from
        the new state, whatever the icon was before. */
    method ButtonClick()
      modifies this
      ensures navActive == !old(navActive)
      ensures Synced()
    {
      navActive := !navActive;
      if navActive {
        iconBars := false;
        iconTimes := true;
      } else {
        iconTimes := false;
        iconBars := true;
      }
    }

    /** A click on a link inside the menu closes it and shows the bars. */
    method LinkClick()
      modifies this
      ensures !navActive && iconBars && !iconTimes
      ensures Synced()
    {
      navActive := false;
      iconTimes := false;
      iconBars := true;
    }
  }
}
