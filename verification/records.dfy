/** The channel object that the playlist parser builds and the import hands to the store. */
module Records {
  import opened Text

  /**
   * A candidate channel, as a JavaScript object: `name`, `referer`, `link` and
   * `state` may each be a string, `null` or `undefined` (a missing property).
   * The parser's empty `quality: {}` property is read by nothing in the model.
   */
  datatype Channel = Channel(name: JsText, referer: JsText, link: JsText, state: JsText)
}
