/**
 * The page element as the booking scripts see it. Every Selenium read the
 * scripts make (`text`, `get_attribute`, `tag_name`, `is_displayed`,
 * `is_enabled`, `location`, `size`) becomes a field, so the decision rules
 * over elements are pure functions.
 */
module Elements {
  import opened Wrappers

  /**
   * Identity of one Selenium wrapper object, as `id(elem)` reads it. Every
   * lookup returns fresh wrappers, so one page element found by two lookups
   * has two different handles: equal handles mean the same wrapper, not
   * merely the same page element.
   */
  datatype Handle = Handle(id: nat)

  /**
   * One element: `text` is its text after `strip()`, attributes are None when
   * absent, `tag` is the lower-case tag name, (x, y) its location in pixels
   * (Selenium rounds it to whole numbers) and width/height its size (which
   * Selenium leaves unrounded).
   */
  datatype Element = Element(
    handle: Handle,
    tag: string,
    text: string,
    classes: Option<string>,
    style: Option<string>,
    id: Option<string>,
    onclick: Option<string>,
    dataTime: Option<string>,
    title: Option<string>,
    innerHtml: Option<string>,
    displayed: bool,
    enabled: bool,
    x: int,
    y: int,
    width: real,
    height: real)

  /** `get_attribute(name) or ""`. */
  function AttrOr(a: Option<string>): string {
    a.GetOr("")
  }

  /** Python truthiness of an attribute read: present and non-empty. */
  predicate Truthy(a: Option<string>) {
    a.Some? && a.value != ""
  }
}
