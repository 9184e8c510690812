/**
 The data shared by the two halves of the crisis-information module: the feed
 items as the Krisinformation service delivers them, the module configuration
 (one object, sent by the display module to its helper), and the socket
 notifications the two halves exchange.
 */
module Feed {

  /** An optional value; `None` stands for a JavaScript `undefined` or `null`. */
  datatype Option<+T> = None | Some(value: T)

  /** One geographic target of a feed item: `Type` is "County", "Country", ... */
  datatype Area = Area(kind: string, description: string)

  /** A feed item. Timestamps are milliseconds since the epoch, as `moment`
      parses the service's ISO-8601 `Published` and `Updated` fields. */
  datatype Item = Item(
    identifier: string,
    headline: string,
    preamble: string,
    published: int,
    updated: int,
    senderName: Option<string>,
    areas: Option<seq<Area>>)

  /** The part of the module configuration the modelled logic reads.
      `areas == None` is an `undefined` allowlist. */
  datatype Config = Config(
    areas: Option<seq<string>>,
    alwaysNational: bool,
    oldest: int,
    silent: bool)

  /** The defaults the display module declares. */
  const DefaultConfig := Config(Some([]), true, 7, false)

  /** The payload of a `SERVICE_FAILURE` notification: only a message. */
  datatype FailurePayload = FailurePayload(message: string)

  /** Socket notifications between the display module and its helper:
      `CONFIG`, `NEW_FEED`, `SERVICE_FAILURE` and the diagnostic `CIS_LOG`. */
  datatype Notification =
    | ConfigMsg(config: Config)
    | NewFeed(items: seq<Item>)
    | ServiceFailure(failure: FailurePayload)
    | LogMsg(text: string)
}
