/** Values shared by the site script and the scraper: an optional value,
    the inline `display` style of an element, and a special-offer record. */
module Common {

  datatype Option<T> = None | Some(value: T)

  /** The inline `style.display` of an element; `Unset` means the script
      has not written it and the stylesheet decides. */
  datatype Display = Unset | DisplayNone | Block | Flex

  /** One entry of `specials.json`: `{title, subtitle, image}`. */
  datatype Special = Special(title: string, subtitle: string, image: string)
}
