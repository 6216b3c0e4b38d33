/**
 * Pages as the page stores see them: an object with an identity and a
 * numeric page id, and the outcome of asking a page whether it is stateless.
 */
module Pages {

  /**
   * A page object, known only by its identity: two values are the same page
   * object exactly when they are equal. What `getPageId()` returns is read
   * through a function `pageId: Page -> int` at the moment of a lookup, so
   * distinct pages may share an id and a page's id may change between calls.
   */
  datatype Page = Page(ref: nat)

  /** Outcome of `isPageStateless()`: an answer, or an exception. */
  datatype StatelessCheck = Answered(stateless: bool) | Threw

  /**
   * Whether the end-of-request flush hands the page on: a page whose check
   * failed is assumed to be stateful, so only a definite "stateless" skips it.
   */
  predicate IsPersisted(c: StatelessCheck)
  {
    !(c.Answered? && c.stateless)
  }
}
